/** Byte-level operations on a file (system/file_logic.c). A file is a byte sequence of allocatedSize chunks. */
module FileLogic {
  import opened Settings
  import opened ChunkMath
  import opened Storage
  import opened Seqs
  import opened Extents
  import opened Disk
  import opened FileStorage

  // ---- The ideal file: a byte sequence -----------------------------------------------

  /** data filled up with EOC to a chunk boundary. */
  ghost function Padded(data: seq<byte>): seq<byte> {
    if Rest(|data|) == 0 then data else data + Eoc(CHUNK_SIZE - Rest(|data|))
  }

  /** content without its last n bytes, filled up with EOC to a chunk boundary. */
  ghost function Shortened(content: seq<byte>, n: nat): seq<byte>
    requires n <= |content|
  {
    content[..|content| - n] + Eoc(Rest(n))
  }

  /** f is a well-formed file whose chunks are marked as allocated. */
  ghost predicate FileOn(f: File, man: StorageMan)
    reads f, f.extents, man, man.allocationMap
  {
    man.Valid() && f.Valid() && Owned(f.Chunks(), man.Marks())
  }

  ghost function ContentOn(f: File, man: StorageMan): seq<byte>
    reads f.extents, man.storage
  {
    Content(f.Chunks(), man.Bytes())
  }

  lemma PaddedLength(data: seq<byte>)
    ensures |Padded(data)| == Span(ChunksFor(|data|))
  {
  }

  /** What padding does to a content, byte by byte: the data follows, then 0x1E up to the next chunk boundary. */
  lemma PaddedBytes(content: seq<byte>, data: seq<byte>)
    ensures var now := content + Padded(data);
            && |content| + |data| <= |now| < |content| + |data| + CHUNK_SIZE
            && (forall k :: 0 <= k < |content| ==> now[k] == content[k])
            && (forall k :: 0 <= k < |data| ==> now[|content| + k] == data[k])
            && forall k :: |content| + |data| <= k < |now| ==> now[k] == 0x1E
  {
  }

  /** What shortening does to a content, byte by byte: the last n bytes go, and 0x1E fills the last chunk. */
  lemma ShortenedBytes(content: seq<byte>, n: nat)
    requires n <= |content|
    ensures var now := Shortened(content, n);
            && |content| - n <= |now| < |content| - n + CHUNK_SIZE
            && (forall k :: 0 <= k < |content| - n ==> now[k] == content[k])
            && forall k :: |content| - n <= k < |now| ==> now[k] == 0x1E
  {
  }

  /** What a read delivers, byte by byte: the slice at the front of the buffer, and nothing behind it. */
  lemma CopiedBytes(was: seq<byte>, now: seq<byte>, text: seq<byte>, from: nat, n: nat)
    requires Copied(was, now, 0, text, from, n)
    ensures |now| == |was| && n <= |now| && from + n <= |text|
    ensures forall k :: 0 <= k < n ==> now[k] == text[from + k]
    ensures forall k :: n <= k < |now| ==> now[k] == was[k]
  {
    forall k: nat | k < |now| ensures now[k] == if k < n then text[from + k] else was[k] {
      assert CopiedAt(was, now, 0, text, from, n, k);
    }
  }

  /** Contents are whole chunks. */
  lemma WholeChunks(chunks: seq<nat>, bytes: seq<byte>)
    ensures |Content(chunks, bytes)| % CHUNK_SIZE == 0
  {
    ContentLength(chunks, bytes);
    SpanIsProduct(|chunks|);
    Quotient(|chunks| * CHUNK_SIZE, CHUNK_SIZE, |chunks|, 0);
  }

  // ---- Confined steps ----------------------------------------------------------------

  /** From v0 to v the chunks gone have been given back and nothing else has happened. */
  ghost predicate Released(v0: View, gone: seq<nat>, v: View) {
    && v0.Sized() && v.Sized() && v.bytes == v0.bytes
    && v.free == v0.free + |gone|
    && forall c :: 0 <= c < CHUNKS_AMOUNT ==> (v.marks[c] <==> v0.marks[c] && c !in gone)
  }

  lemma RunMember(e: ChunkExtent)
    ensures forall c: nat :: c in Run(e) <==> e.start <= c < e.start + e.chunkAmount
  {
    forall c: nat | e.start <= c < e.start + e.chunkAmount ensures c in Run(e) {
      assert Run(e)[c - e.start] == c;
    }
  }

  /** Steps of one file compose. */
  lemma ConfinedTwice(v0: View, own0: seq<nat>, v1: View, own1: seq<nat>, v2: View, own2: seq<nat>)
    requires Confined(v0, own0, v1, own1) && Confined(v1, own1, v2, own2)
    ensures Confined(v0, own0, v2, own2)
  {
    forall c: nat | c < CHUNKS_AMOUNT && v0.marks[c] && c !in own0
      ensures ChunkBytes(v2.bytes, c) == ChunkBytes(v0.bytes, c)
    {
      assert v1.marks[c] && c !in own1;
    }
  }

  /** A file that gives back the chunks gone and keeps the chunks keep owns what it keeps, and its step is confined. */
  lemma ReleasedIsConfined(v0: View, own: seq<nat>, keep: seq<nat>, gone: seq<nat>, v: View)
    requires Owned(own, v0.marks) && Released(v0, gone, v)
    requires own == keep + gone || own == gone + keep
    ensures Owned(keep, v.marks) && Confined(v0, own, v, keep)
  {
    forall j, k | 0 <= j < |keep| && 0 <= k < |gone| ensures keep[j] != gone[k] {
      if own == keep + gone {
        assert own[j] == keep[j] && own[|keep| + k] == gone[k];
      } else {
        assert own[k] == gone[k] && own[|gone| + j] == keep[j];
      }
    }
    var shift := if own == keep + gone then 0 else |gone|;
    assert forall j :: 0 <= j < |keep| ==> keep[j] == own[shift + j];
    assert forall c :: c in own <==> c in keep || c in gone;
    forall c | c in keep ensures c in own && v0.marks[c] {
      var k :| 0 <= k < |own| && own[k] == c;
    }
  }

  lemma FileOnFacts(f: File, man: StorageMan)
    requires FileOn(f, man)
    ensures f.Valid() && man.Valid() && ViewOf(man).Sized()
    ensures Owned(f.Chunks(), man.Marks()) && f.allocatedSize == |f.Chunks()|
    ensures f.allocatedSize == 0 <==> Used(f.Table()) == 0
    ensures |ContentOn(f, man)| == Span(f.allocatedSize)
  {
    UsedNothing(f.Table());
    ContentLength(f.Chunks(), man.Bytes());
  }

  /** Bytes that change only in owned chunks do not spoil confinement. */
  lemma ConfinedRewrite(v0: View, own: seq<nat>, v: View, keep: seq<nat>, v': View)
    requires Confined(v0, own, v, keep) && v'.marks == v.marks && v'.free == v.free && |v'.bytes| == |v.bytes|
    requires forall c: nat :: c < CHUNKS_AMOUNT && c !in keep ==> ChunkBytes(v'.bytes, c) == ChunkBytes(v.bytes, c)
    ensures Confined(v0, own, v', keep)
  {
  }

  /** A file that takes over a free run owns it beside its own chunks, and its step is confined. */
  lemma GrownIsConfined(v0: View, own: seq<nat>, e: ChunkExtent, v: View)
    requires v0.Sized() && Owned(own, v0.marks) && FreeRun(v0.marks, e.start, e.chunkAmount)
    requires v.marks == Marked(v0.marks, e.start, e.chunkAmount) && v.free == v0.free - e.chunkAmount
    requires |v.bytes| == |v0.bytes|
    requires forall c: nat :: c < CHUNKS_AMOUNT && c !in Run(e) ==> ChunkBytes(v.bytes, c) == ChunkBytes(v0.bytes, c)
    ensures Owned(own + Run(e), v.marks) && Confined(v0, own, v, own + Run(e))
    ensures Content(own, v.bytes) == Content(own, v0.bytes)
  {
    RunMember(e);
    var own' := own + Run(e);
    forall k | 0 <= k < |own| ensures own[k] !in Run(e) && v.marks[own[k]] {
      assert v0.marks[own[k]];
    }
    assert forall c :: c in own' <==> c in own || c in Run(e);
    forall k | |own| <= k < |own'| ensures own'[k] == e.start + (k - |own|) {
    }
    ContentFrame(own, v0.bytes, v.bytes);
  }

  /** A list of chunks holds text when each of them holds its slice of text. */
  lemma {:induction false} ContentFromSlices(chunks: seq<nat>, bytes: seq<byte>, text: seq<byte>)
    requires |text| == Span(|chunks|)
    requires forall k: nat :: k < |chunks| ==> HoldsSlice(ChunkBytes(bytes, chunks[k]), text, k)
    ensures Content(chunks, bytes) == text
  {
    if chunks != [] {
      var n := |chunks| - 1;
      var piece := ChunkBytes(bytes, chunks[n]);
      assert HoldsSlice(piece, text, n) && Span(n) + CHUNK_SIZE == |text|;
      forall k: nat | k < n ensures HoldsSlice(ChunkBytes(bytes, chunks[k]), text[..Span(n)], k) {
        assert HoldsSlice(ChunkBytes(bytes, chunks[k]), text, k);
        SliceOfPrefix(ChunkBytes(bytes, chunks[k]), text, k, n);
      }
      LastSlice(text, piece, n);
      hide Span, HoldsSlice, ChunkBytes;
      ContentFromSlices(chunks[..n], bytes, text[..Span(n)]);
    }
  }

  lemma SliceOfPrefix(piece: seq<byte>, text: seq<byte>, k: nat, n: nat)
    requires HoldsSlice(piece, text, k) && k < n && Span(n) <= |text|
    ensures HoldsSlice(piece, text[..Span(n)], k)
  {
    SpanOrder(k, n);
    assert text[..Span(n)][Span(k)..Span(k) + CHUNK_SIZE] == text[Span(k)..Span(k) + CHUNK_SIZE];
  }

  lemma LastSlice(text: seq<byte>, piece: seq<byte>, n: nat)
    requires HoldsSlice(piece, text, n) && Span(n) + CHUNK_SIZE == |text|
    ensures text == text[..Span(n)] + piece
  {
  }

  /** piece is bytes Span(k) to (k + 1) * CHUNK_SIZE of text. */
  ghost predicate HoldsSlice(piece: seq<byte>, text: seq<byte>, k: nat) {
    Span(k) + CHUNK_SIZE <= |text| && piece == text[Span(k)..Span(k) + CHUNK_SIZE]
  }

  // ---- Append ------------------------------------------------------------------------

  /** get_remaining_data: amount bytes of data from start on, then EOC up to the end of a chunk. */
  method GetRemainingData(out: array<byte>, data: seq<byte>, start: nat, amount: nat)
    requires out.Length == CHUNK_SIZE && amount <= CHUNK_SIZE && start + amount <= |data|
    modifies out
    ensures out[..] == data[start..start + amount] + Eoc(CHUNK_SIZE - amount)
  {
    var i := 0;
    while i < amount
      invariant 0 <= i <= amount
      invariant forall k :: 0 <= k < i ==> out[k] == data[start + k]
    {
      out[i] := data[start + i];
      i := i + 1;
    }
    while i < CHUNK_SIZE
      invariant amount <= i <= CHUNK_SIZE
      invariant forall k :: 0 <= k < amount ==> out[k] == data[start + k]
      invariant forall k :: amount <= k < i ==> out[k] == EOC_OPERATOR
    {
      out[i] := EOC_OPERATOR;
      i := i + 1;
    }
  }

  /** Chunks start .. start + n hold the first n slices of text, and every other chunk is as in old. */
  ghost predicate Wrote(was: seq<byte>, now: seq<byte>, start: nat, n: nat, text: seq<byte>)
  {
    forall c: nat :: c < CHUNKS_AMOUNT ==>
      if start <= c < start + n then HoldsSlice(ChunkBytes(now, c), text, c - start)
      else ChunkBytes(now, c) == ChunkBytes(was, c)
  }

  lemma WroteNothing(was: seq<byte>, start: nat, text: seq<byte>)
    ensures Wrote(was, was, start, 0, text)
  {
  }

  /** A write of CHUNK_SIZE bytes leaves nothing of the chunk as it was. */
  lemma WholePiece(piece: seq<byte>, was: seq<byte>)
    requires |piece| == |was|
    ensures piece + was[|piece|..] == piece
  {
  }

  lemma IsSlice(piece: seq<byte>, text: seq<byte>, k: nat)
    requires Span(k) + CHUNK_SIZE <= |text| && piece == text[Span(k)..Span(k) + CHUNK_SIZE]
    ensures HoldsSlice(piece, text, k)
  {
  }

  lemma WroteNext(was: seq<byte>, now: seq<byte>, next: seq<byte>, start: nat, n: nat, text: seq<byte>)
    requires Wrote(was, now, start, n, text)
    requires SameOutside(now, next, start + n) && HoldsSlice(ChunkBytes(next, start + n), text, n)
    ensures Wrote(was, next, start, n + 1, text)
  {
    forall c: nat | c < CHUNKS_AMOUNT
      ensures if start <= c < start + n + 1 then HoldsSlice(ChunkBytes(next, c), text, c - start)
              else ChunkBytes(next, c) == ChunkBytes(was, c)
    {
      if c != start + n { assert ChunkBytes(next, c) == ChunkBytes(now, c); }
    }
  }

  /** The loop of file_append over the chunks of a fresh extent that data fills completely. */
  method WriteFullChunks(f: File, man: StorageMan, e: ChunkExtent, full: nat, data: seq<byte>)
    requires ExtentOn(f, man, e) && full <= e.chunkAmount && Span(full) <= |data|
    modifies man.storage
    ensures Wrote(old(man.Bytes()), man.Bytes(), e.start, full, data)
  {
    hide Wrote, SameOutside, HoldsSlice, File.Chunks, ChunkBytes, Span;
    WroteNothing(man.Bytes(), e.start, data);
    SpanOfNothing();
    var cur, at := e.start, 0;
    while cur < e.start + full
      invariant e.start <= cur <= e.start + full && at == Span(cur - e.start)
      invariant Wrote(old(man.Bytes()), man.Bytes(), e.start, cur - e.start, data)
    {
      ghost var now, k := man.Bytes(), cur - e.start;
      SpanOrder(k, full);
      SpanOfNext(k);
      var status := f.WriteChunk(man, cur, data[at..at + CHUNK_SIZE]);
      if status != Success { assert false; } // the rollback of file_logic.c:452-456: writes to fresh chunks do not fail
      WholePiece(data[at..at + CHUNK_SIZE], ChunkBytes(now, cur));
      IsSlice(ChunkBytes(man.Bytes(), cur), data, k);
      WroteNext(old(man.Bytes()), now, man.Bytes(), e.start, k, data);
      cur, at := cur + 1, at + CHUNK_SIZE;
    }
  }

  /** Extent e belongs to f, and its chunks are marked. */
  ghost predicate ExtentOn(f: File, man: StorageMan, e: ChunkExtent)
    reads f.extents, man, man.allocationMap
  {
    && f.Shaped() && man.Sized() && e.start + e.chunkAmount <= CHUNKS_AMOUNT
    && forall c :: e.start <= c < e.start + e.chunkAmount ==> c in f.Chunks() && man.Marks()[c]
  }

  lemma ExtentChunk(f: File, man: StorageMan, e: ChunkExtent, c: nat)
    requires ExtentOn(f, man, e) && e.start <= c < e.start + e.chunkAmount
    ensures f.Shaped() && man.Sized() && c < CHUNKS_AMOUNT && c in f.Chunks() && man.Marks()[c]
  {
  }

  lemma SpanOfNothing()
    ensures Span(0) == 0
  {
  }

  lemma SpanOfNext(k: nat)
    ensures Span(k + 1) == Span(k) + CHUNK_SIZE
  {
  }

  lemma PaddingFacts(data: seq<byte>)
    ensures var q, rest := FullChunks(|data|), Rest(|data|);
            && Span(q) + rest == |data| && data <= Padded(data)
            && ChunksFor(|data|) == (if rest == 0 then q else q + 1)
  {
  }

  lemma WrotePadded(was: seq<byte>, now: seq<byte>, start: nat, n: nat, data: seq<byte>, text: seq<byte>)
    requires Wrote(was, now, start, n, data) && data <= text
    ensures Wrote(was, now, start, n, text)
  {
    forall c: nat | c < CHUNKS_AMOUNT && start <= c < start + n
      ensures HoldsSlice(ChunkBytes(now, c), text, c - start)
    {
      assert HoldsSlice(ChunkBytes(now, c), data, c - start);
    }
  }

  /** The writing part of file_append: the full chunks, then a last chunk padded with EOC when data does not fill it. */
  method WriteData(f: File, man: StorageMan, e: ChunkExtent, data: seq<byte>)
    requires ExtentOn(f, man, e) && e.chunkAmount == ChunksFor(|data|)
    modifies man.storage
    ensures Wrote(old(man.Bytes()), man.Bytes(), e.start, e.chunkAmount, Padded(data))
  {
    hide *;
    PaddingFacts(data);
    var q, rest := Split(|data|);
    var full := e.chunkAmount - if rest == 0 then 0 else 1;
    WriteFullChunks(f, man, e, full, data);
    WrotePadded(old(man.Bytes()), man.Bytes(), e.start, full, data, Padded(data));
    if rest == 0 { return; }
    ghost var before := man.Bytes();
    ExtentChunk(f, man, e, e.start + full);
    WriteLastChunk(f, man, e.start + full, data, |data| - rest, rest);
    WroteNext(old(man.Bytes()), before, man.Bytes(), e.start, full, Padded(data));
  }

  /** The part of file_append for a last chunk that data does not fill; at is where the full chunks end. */
  method WriteLastChunk(f: File, man: StorageMan, c: nat, data: seq<byte>, at: nat, rest: nat)
    requires f.Shaped() && man.Sized()
    requires 0 < rest == Rest(|data|) && at + rest == |data|
    requires c < CHUNKS_AMOUNT && c in f.Chunks() && man.Marks()[c]
    modifies man.storage
    ensures SameOutside(old(man.Bytes()), man.Bytes(), c)
    ensures HoldsSlice(ChunkBytes(man.Bytes(), c), Padded(data), FullChunks(|data|))
  {
    var remaining := new byte[CHUNK_SIZE];
    GetRemainingData(remaining, data, at, rest);
    var status := f.WriteChunk(man, c, remaining[..]);
    if status != Success { assert false; } // the rollback of file_logic.c:480-483
  }

  /** get_chunks_amount */
  method GetChunksAmount(dataLength: nat) returns (n: nat)
    ensures n == ChunksFor(dataLength)
  {
    var q, rest := Split(dataLength);
    return if rest == 0 then q else q + 1;
  }

  lemma RoomArithmetic(marks: seq<bool>, dataLength: nat)
    requires |marks| == CHUNKS_AMOUNT
    ensures dataLength > Span(CountFree(marks)) ==> !HasRoom(marks, ChunksFor(dataLength))
    ensures dataLength <= Span(CountFree(marks)) ==> ChunksFor(dataLength) <= CHUNKS_AMOUNT
    ensures ChunksFor(dataLength) == 0 <==> dataLength == 0
  {
    ChunksForIsCeiling(dataLength, CountFree(marks));
    ChunksForIsCeiling(dataLength, 0);
    FreeCountBound(marks);
    if dataLength > Span(CountFree(marks)) { FreeRunWithinFreeCount(marks, ChunksFor(dataLength)); }
  }

  lemma NothingIsConfined(v: View, own: seq<nat>)
    requires v.Sized() && Owned(own, v.marks)
    ensures Confined(v, own, v, own)
  {
    forall k | 0 <= k < |own| ensures v.marks[own[k]] {
    }
  }

  /** The verdict on appending data to a file with used extents. */
  ghost function AppendStatus(marks: seq<bool>, used: nat, data: seq<byte>): Status {
    if |data| > Span(CountFree(marks)) then DataOverFlow
    else if data == [] then InvalidOperation
    else if used == MAX_FILE_CHUNK_EXTENTS_AMOUNT then FileChunkExtentLimitExceeded
    else if HasRoom(marks, ChunksFor(|data|)) then Success
    else NoSpace
  }

  /** An append is accepted exactly when there is data, an extent left in the table and a free run that is long
      enough. */
  lemma AppendAccepted(marks: seq<bool>, used: nat, data: seq<byte>)
    requires |marks| == CHUNKS_AMOUNT && used <= MAX_FILE_CHUNK_EXTENTS_AMOUNT
    ensures AppendStatus(marks, used, data) == Success <==>
            data != [] && used < MAX_FILE_CHUNK_EXTENTS_AMOUNT && HasRoom(marks, ChunksFor(|data|))
  {
    RoomArithmetic(marks, |data|);
  }

  /** The answers of an append in terms of bytes and single chunks. */
  lemma AppendAnswers(marks: seq<bool>, used: nat, data: seq<byte>)
    requires |marks| == CHUNKS_AMOUNT && used <= MAX_FILE_CHUNK_EXTENTS_AMOUNT
    ensures var status, free := AppendStatus(marks, used, data), |set c | 0 <= c < CHUNKS_AMOUNT && !marks[c]|;
            && (status == DataOverFlow <==> |data| > free * CHUNK_SIZE)
            && (status == InvalidOperation <==> |data| == 0)
            && (status == FileChunkExtentLimitExceeded <==>
                 0 < |data| <= free * CHUNK_SIZE && used == MAX_FILE_CHUNK_EXTENTS_AMOUNT)
            && status in {Success, NoSpace, DataOverFlow, InvalidOperation, FileChunkExtentLimitExceeded}
  {
    CountFreeIsCardinality(marks);
    SpanIsProduct(CountFree(marks));
    assert (set c | 0 <= c < CHUNKS_AMOUNT && !marks[c]) == set c | 0 <= c < |marks| && !marks[c];
  }

  /** Any n free chunks in a row are enough for data of at most n chunks, and an append that is accepted takes the
      fewest chunks that hold the data. */
  lemma AppendFits(marks: seq<bool>, used: nat, data: seq<byte>, window: nat, n: nat)
    requires |marks| == CHUNKS_AMOUNT && used < MAX_FILE_CHUNK_EXTENTS_AMOUNT && data != []
    ensures |data| <= n * CHUNK_SIZE && window + n <= CHUNKS_AMOUNT
            && (forall c :: window <= c < window + n ==> !marks[c]) ==>
              AppendStatus(marks, used, data) == Success
    ensures AppendStatus(marks, used, data) == Success ==>
              && HasRoom(marks, ChunksFor(|data|))
              && var e := NewExtent(marks, data);
                 && (e.chunkAmount - 1) * CHUNK_SIZE < |data| <= e.chunkAmount * CHUNK_SIZE
                 && !e.isEmpty && e.start + e.chunkAmount <= CHUNKS_AMOUNT
                 && forall c :: e.start <= c < e.start + e.chunkAmount ==> !marks[c]
  {
    var m := ChunksFor(|data|);
    AppendAccepted(marks, used, data);
    RoomMeans(marks, m, window);
    SpanIsProduct(n);
    SpanIsProduct(m);
    ChunksForIsCeiling(|data|, n);
    ChunksForIsCeiling(|data|, m);
    ChunksForIsCeiling(|data|, 0);
    SpanIsProduct(m - 1);
    ChunksForIsCeiling(|data|, m - 1);
    hide ChunksFor, Span, HasRoom, AppendStatus, FirstStart;
  }

  /** The extent that an accepted append of data adds. */
  ghost function NewExtent(marks: seq<bool>, data: seq<byte>): ChunkExtent
    requires HasRoom(marks, ChunksFor(|data|))
  {
    ChunkExtent(false, FirstStart(marks, ChunksFor(|data|)), ChunksFor(|data|))
  }

  /** file_append: all or nothing. It succeeds exactly when there is data, an extent left in the table and a free run
      that is long enough; then the lowest such run joins the file, its content grows by the padded data, and otherwise
      nothing changes. */
  method FileAppend(f: File, man: StorageMan, data: seq<byte>) returns (status: Status)
    requires FileOn(f, man)
    modifies f`allocatedSize, f.extents, man`freeChunkCount, man.allocationMap, man.storage
    ensures FileOn(f, man)
    ensures Confined(old(ViewOf(man)), old(f.Chunks()), ViewOf(man), f.Chunks())
    ensures status == AppendStatus(old(man.Marks()), |old(f.Layout())|, data)
    ensures status == Success <==>
              && data != [] && |old(f.Layout())| < MAX_FILE_CHUNK_EXTENTS_AMOUNT
              && HasRoom(old(man.Marks()), ChunksFor(|data|))
    ensures status == Success ==> ContentOn(f, man) == old(ContentOn(f, man)) + Padded(data)
    ensures status == Success ==>
              var was, now := old(ContentOn(f, man)), ContentOn(f, man);
              && |now| % CHUNK_SIZE == 0 && |was| + |data| <= |now| < |was| + |data| + CHUNK_SIZE
              && (forall k :: 0 <= k < |was| ==> now[k] == was[k])
              && (forall k :: 0 <= k < |data| ==> now[|was| + k] == data[k])
              && forall k :: |was| + |data| <= k < |now| ==> now[k] == 0x1E
    ensures status == Success ==> f.Layout() == old(f.Layout()) + [NewExtent(old(man.Marks()), data)]
    ensures status != Success ==>
              && f.Table() == old(f.Table()) && f.allocatedSize == old(f.allocatedSize)
              && ViewOf(man) == old(ViewOf(man))
  {
    hide *;
    FileParts(f, man);
    NoneEmptyOn(f, man);
    LayoutLength(f);
    ContentOnIs(f, man);
    ghost var v0, own, table := ViewOf(man), f.Chunks(), f.Table();
    NothingIsConfined(v0, own);
    RoomArithmetic(man.Marks(), |data|);
    AppendAccepted(man.Marks(), |f.Layout()|, data);
    AppendStatusIs(man, |f.Layout()|, data);
    var freeBytes := Product(man.freeChunkCount);
    if |data| > freeBytes { return DataOverFlow; }
    if |data| == 0 { return InvalidOperation; }
    var chunksNeeded := GetChunksAmount(|data|);
    var index;
    status, index := f.AllocateChunks(man, chunksNeeded);
    if status != Success {
      ViewIs(man);
      SameTable(f, man, table);
      return status;
    }
    TableFacts(f, index);
    var e := f.extents[index];
    OneFirstFit(v0.marks, e.start, chunksNeeded);
    NewExtentIs(v0.marks, data);
    FreshExtent(f, man, e, v0.marks, own);
    WriteData(f, man, e, data);
    PaddedLength(data);
    ViewIs(man);
    AppendedContent(v0, own, e, ViewOf(man), Padded(data));
    ContentOnIs(f, man);
    PaddedBytes(Content(own, v0.bytes), data);
    WholeChunks(f.Chunks(), man.Bytes());
    FileFromValid(f, man);
    return Success;
  }

  /** A file whose table and size are those of a well-formed file. */
  lemma SameTable(f: File, man: StorageMan, table: seq<ChunkExtent>)
    requires f.Shaped() && man.Valid() && f.Table() == table && Compact(table) && NoneEmpty(table)
    requires Owned(TableChunks(table), man.Marks()) && f.allocatedSize == |TableChunks(table)|
    ensures FileOn(f, man) && f.Chunks() == TableChunks(table) && f.Layout() == Occupied(table)
  {
  }

  lemma LayoutLength(f: File)
    ensures |f.Layout()| == Used(f.Table()) <= |f.Table()|
  {
  }

  lemma AppendStatusIs(man: StorageMan, used: nat, data: seq<byte>)
    requires man.Valid()
    ensures man.freeChunkCount == CountFree(man.Marks())
    ensures AppendStatus(man.Marks(), used, data) ==
            if |data| > Span(man.freeChunkCount) then DataOverFlow
            else if data == [] then InvalidOperation
            else if used == MAX_FILE_CHUNK_EXTENTS_AMOUNT then FileChunkExtentLimitExceeded
            else if HasRoom(man.Marks(), ChunksFor(|data|)) then Success
            else NoSpace
  {
  }

  lemma NewExtentIs(marks: seq<bool>, data: seq<byte>)
    requires HasRoom(marks, ChunksFor(|data|))
    ensures NewExtent(marks, data) == ChunkExtent(false, FirstStart(marks, ChunksFor(|data|)), ChunksFor(|data|))
  {
  }

  /** The extent that file_allocate_chunks has just added. */
  lemma FreshExtent(f: File, man: StorageMan, e: ChunkExtent, marks: seq<bool>, own: seq<nat>)
    requires f.Valid() && man.Valid() && |marks| == CHUNKS_AMOUNT && FirstFit(marks, e.start, e.chunkAmount)
    requires man.Marks() == Marked(marks, e.start, e.chunkAmount) && f.Chunks() == own + Run(e)
    ensures ExtentOn(f, man, e) && InDisk(e) && FreeRun(marks, e.start, e.chunkAmount)
  {
    RunMember(e);
    hide File.Chunks;
  }

  lemma FileFromValid(f: File, man: StorageMan)
    requires f.Valid() && man.Valid() && Owned(f.Chunks(), man.Marks())
    ensures FileOn(f, man)
  {
  }

  lemma AppendedContent(v0: View, own: seq<nat>, e: ChunkExtent, v: View, text: seq<byte>)
    requires v0.Sized() && Owned(own, v0.marks) && FreeRun(v0.marks, e.start, e.chunkAmount)
    requires v.marks == Marked(v0.marks, e.start, e.chunkAmount) && v.free == v0.free - e.chunkAmount
    requires |v.bytes| == |v0.bytes| && |text| == Span(e.chunkAmount) && InDisk(e)
    requires Wrote(v0.bytes, v.bytes, e.start, e.chunkAmount, text)
    ensures Owned(own + Run(e), v.marks) && Confined(v0, own, v, own + Run(e))
    ensures Content(own + Run(e), v.bytes) == Content(own, v0.bytes) + text
  {
    hide *;
    WroteRun(v0.bytes, v.bytes, e, text);
    GrownIsConfined(v0, own, e, v);
    RunLength(e);
    ContentFromSlices(Run(e), v.bytes, text);
    ContentAppend(own, Run(e), v.bytes);
  }

  lemma WroteRun(was: seq<byte>, now: seq<byte>, e: ChunkExtent, text: seq<byte>)
    requires Wrote(was, now, e.start, e.chunkAmount, text) && InDisk(e)
    ensures forall k: nat :: k < |Run(e)| ==> HoldsSlice(ChunkBytes(now, Run(e)[k]), text, k)
    ensures forall c: nat :: c < CHUNKS_AMOUNT && c !in Run(e) ==> ChunkBytes(now, c) == ChunkBytes(was, c)
  {
    RunMember(e);
    hide HoldsSlice, ChunkBytes;
    forall k: nat | k < |Run(e)| ensures HoldsSlice(ChunkBytes(now, Run(e)[k]), text, k) {
      assert Run(e)[k] == e.start + k;
    }
  }

  ghost predicate InDisk(e: ChunkExtent) {
    e.start + e.chunkAmount <= CHUNKS_AMOUNT
  }

  lemma {:induction false} FreeCountBound(marks: seq<bool>)
    ensures CountFree(marks) <= |marks|
  {
    if marks != [] { FreeCountBound(marks[..|marks| - 1]); }
  }

  // ---- Well-formed files, part by part ------------------------------------------------

  /** What a well-formed file consists of. */
  lemma FileParts(f: File, man: StorageMan)
    requires FileOn(f, man)
    ensures f.Valid() && f.Shaped() && man.Valid() && ViewOf(man).Sized()
    ensures Compact(f.Table()) && Used(f.Table()) <= |f.Table()|
    ensures |f.Table()| == f.extents.Length && forall i :: 0 <= i < f.extents.Length ==> f.Table()[i] == f.extents[i]
    ensures f.Chunks() == TableChunks(f.Table()) && f.Layout() == Occupied(f.Table())
    ensures Owned(f.Chunks(), man.Marks()) && f.allocatedSize == |f.Chunks()|
    ensures ViewOf(man) == View(man.Marks(), man.freeChunkCount, man.Bytes()) && |man.Bytes()| == man.storage.Length
  {
  }

  lemma FileFromParts(f: File, man: StorageMan)
    requires f.Shaped() && man.Valid() && Compact(f.Table()) && Owned(f.Chunks(), man.Marks())
    requires f.allocatedSize == |f.Chunks()| && NoneEmpty(f.Table())
    ensures FileOn(f, man)
  {
  }

  /** No occupied extent is empty of chunks. */
  ghost predicate NoneEmpty(table: seq<ChunkExtent>) {
    forall i :: 0 <= i < Used(table) ==> 0 < table[i].chunkAmount
  }

  lemma NoneEmptyOn(f: File, man: StorageMan)
    requires FileOn(f, man)
    ensures NoneEmpty(f.Table())
  {
  }

  lemma UnmarkedIsReleased(v0: View, e: ChunkExtent, v: View)
    requires v0.Sized() && v.bytes == v0.bytes && v.marks == Unmarked(v0.marks, e.start, e.chunkAmount)
    requires v.free == v0.free + e.chunkAmount
    ensures Released(v0, Run(e), v)
  {
    RunMember(e);
  }

  lemma ViewIs(man: StorageMan)
    requires man.Sized()
    ensures ViewOf(man) == View(man.Marks(), man.freeChunkCount, man.Bytes()) && |man.Bytes()| == man.storage.Length
  {
  }

  // ---- Clear -------------------------------------------------------------------------

  /** Extent k of a well-formed file may be freed. */
  lemma FreeableExtent(table: seq<ChunkExtent>, k: nat, marks: seq<bool>)
    requires Owned(TableChunks(table), marks) && k < Used(table) && 0 < table[k].chunkAmount
    ensures var e := table[k];
            && e.start + e.chunkAmount <= CHUNKS_AMOUNT
            && e.chunkAmount <= |TableChunks(table)|
            && forall c :: e.start <= c < e.start + e.chunkAmount ==> marks[c]
  {
    var runs := table[..Used(table)];
    RunOfOwned(runs, k, marks);
    ChunksOfSplit(runs, k);
  }

  /** The table after extent k has been freed and the gap has been closed. */
  ghost function Freed(table: seq<ChunkExtent>, k: nat): seq<ChunkExtent>
    requires k < |table|
  {
    LeftShifted(table[k := Emptied(table[k])], k)
  }

  lemma ChunksOfCons(e: ChunkExtent, runs: seq<ChunkExtent>)
    ensures ChunksOf([e] + runs) == Run(e) + ChunksOf(runs)
  {
    ChunksOfAppend([e], runs);
    assert [e][..0] == [];
  }

  lemma FirstGone(table: seq<ChunkExtent>)
    requires Compact(table) && 0 < Used(table)
    ensures Occupied(table) == [table[0]] + Occupied(Freed(table, 0))
  {
    hide *;
    LeftShiftRemoves(table, 0);
    FreedIs(table, 0);
    OccupiedIs(table);
    OccupiedIs(Freed(table, 0));
    PrefixWithoutFirst(table, Used(table));
  }

  lemma OccupiedIs(table: seq<ChunkExtent>)
    ensures Used(table) <= |table| && Occupied(table) == table[..Used(table)]
    ensures TableChunks(table) == ChunksOf(Occupied(table))
  {
  }

  /** Freeing the first extent takes its chunks off the front of the list of chunks. */
  lemma FirstExtentChunks(table: seq<ChunkExtent>)
    requires Compact(table) && 0 < Used(table)
    ensures TableChunks(table) == Run(table[0]) + TableChunks(Freed(table, 0))
  {
    FirstGone(table);
    hide Freed, ChunksOf, Occupied, Compact;
    ChunksOfCons(table[0], Occupied(Freed(table, 0)));
  }

  /** Freeing the last extent takes its chunks off the end, and changes no other entry of the table. */
  lemma LastExtentChunks(table: seq<ChunkExtent>, k: nat)
    requires Compact(table) && k + 1 == Used(table)
    ensures TableChunks(table) == TableChunks(Freed(table, k)) + Run(table[k])
    ensures Freed(table, k) == table[k := Emptied(table[k])]
    ensures Occupied(Freed(table, k)) == Occupied(table)[..k]
  {
    hide *;
    LeftShiftRemoves(table, k);
    FreedIs(table, k);
    OccupiedIs(table);
    OccupiedIs(Freed(table, k));
    PrefixWithoutLast(table, k);
    ChunksOfSnoc(table[..k], table[k]);
    LastFreed(table, k);
  }

  lemma LastFreed(table: seq<ChunkExtent>, k: nat)
    requires Compact(table) && k + 1 == Used(table)
    ensures Freed(table, k) == table[k := Emptied(table[k])]
  {
    var gap := table[k := Emptied(table[k])];
    assert gap[k + 1..] == table[k + 1..];
    UsedIs(gap[k + 1..], 0);
  }

  lemma FreedTable(table: seq<ChunkExtent>, k: nat)
    requires Compact(table) && k < Used(table) && NoneEmpty(table)
    ensures var table' := Freed(table, k);
            Compact(table') && Used(table') == Used(table) - 1 && NoneEmpty(table')
  {
    LeftShiftRemoves(table, k);
    var table' := Freed(table, k);
    forall i | 0 <= i < Used(table') ensures 0 < table'[i].chunkAmount {
      assert table'[..Used(table')][i] == table'[i];
    }
  }

  /** Freeing the first or the last extent of a well-formed file releases its chunks and leaves the file well formed. */
  method FreeEndExtent(f: File, man: StorageMan, k: nat) returns (status: Status)
    requires FileOn(f, man) && k < Used(f.Table()) && (k == 0 || k == Used(f.Table()) - 1)
    modifies f`allocatedSize, f.extents, man`freeChunkCount, man.allocationMap
    ensures status == Success
    ensures FileOn(f, man) && Used(f.Table()) == old(Used(f.Table())) - 1
    ensures Confined(old(ViewOf(man)), old(f.Chunks()), ViewOf(man), f.Chunks())
    ensures k == old(Used(f.Table())) - 1 ==> old(f.Chunks()) == f.Chunks() + Run(old(f.Table()[k]))
    ensures k == old(Used(f.Table())) - 1 ==> f.Table() == old(f.Table())[k := Emptied(old(f.Table()[k]))]
    ensures k == old(Used(f.Table())) - 1 ==> f.Layout() == old(f.Layout())[..k]
  {
    hide *;
    FileParts(f, man);
    NoneEmptyOn(f, man);
    ghost var table, v0, own, e := f.Table(), ViewOf(man), f.Chunks(), f.Table()[k];
    NonemptyAt(table, k);
    FreeableExtent(table, k, man.Marks());
    FreedTable(table, k);
    if k == Used(table) - 1 { LastExtentChunks(table, k); } else { FirstExtentChunks(table); }
    FreedIs(table, k);
    status := f.FreeChunkExtent(k, man);
    TableFacts(f, k);
    ViewIs(man);
    UnmarkedIsReleased(v0, e, ViewOf(man));
    ReleasedIsConfined(v0, own, f.Chunks(), Run(e), ViewOf(man));
    KeptLength(own, f.Chunks(), Run(e));
    RunLength(e);
    FileFromParts(f, man);
  }

  lemma NonemptyAt(table: seq<ChunkExtent>, k: nat)
    requires NoneEmpty(table) && k < Used(table)
    ensures 0 < table[k].chunkAmount && !table[k].isEmpty
  {
  }

  lemma FreedIs(table: seq<ChunkExtent>, k: nat)
    requires k < |table|
    ensures Freed(table, k) == LeftShifted(table[k := Emptied(table[k])], k)
  {
  }

  lemma RunLength(e: ChunkExtent)
    ensures |Run(e)| == e.chunkAmount
  {
  }

  lemma KeptLength(own: seq<nat>, kept: seq<nat>, gone: seq<nat>)
    requires own == kept + gone || own == gone + kept
    ensures |kept| == |own| - |gone|
  {
  }

  /** file_delete_data: gives back every chunk of the file. */
  method FileDeleteData(f: File, man: StorageMan) returns (status: Status)
    requires FileOn(f, man)
    modifies f`allocatedSize, f.extents, man`freeChunkCount, man.allocationMap
    ensures status == Success
    ensures FileOn(f, man) && f.Chunks() == [] && f.Layout() == [] && f.allocatedSize == 0
    ensures man.freeChunkCount == old(man.freeChunkCount) + old(f.allocatedSize)
    ensures Confined(old(ViewOf(man)), old(f.Chunks()), ViewOf(man), f.Chunks())
  {
    ghost var v0, own := ViewOf(man), f.Chunks();
    NothingIsConfined(v0, own);
    var i := 0;
    while i < MAX_FILE_CHUNK_EXTENTS_AMOUNT
      invariant 0 <= i <= MAX_FILE_CHUNK_EXTENTS_AMOUNT
      invariant FileOn(f, man) && Confined(v0, own, ViewOf(man), f.Chunks())
      invariant 0 < i ==> Used(f.Table()) == 0
      decreases MAX_FILE_CHUNK_EXTENTS_AMOUNT - i, Used(f.Table())
    {
      if f.extents[i].isEmpty {
        i := i + 1;
        continue;
      }
      ghost var v, owned := ViewOf(man), f.Chunks();
      status := FreeEndExtent(f, man, i);
      if status != Success { return status; }
      ConfinedTwice(v0, own, v, owned, ViewOf(man), f.Chunks());
    }
    assert f.Table()[..0] == [];
    return Success;
  }

  // ---- Truncate ----------------------------------------------------------------------

  /** file_get_last_chunk_extent */
  method FileGetLastChunkExtent(f: File) returns (status: Status, last: nat)
    requires f.Shaped()
    ensures status == if Used(f.Table()) == 0 then FileIsEmpty else Success
    ensures status == Success ==> last == Used(f.Table()) - 1
  {
    last := 0;
    for i := 0 to MAX_FILE_CHUNK_EXTENTS_AMOUNT
      invariant forall j :: 0 <= j < i ==> !f.extents[j].isEmpty
      invariant last == if i == 0 then 0 else i - 1
    {
      if f.extents[i].isEmpty {
        UsedIs(f.Table(), i);
        if f.extents[last].isEmpty { return FileIsEmpty, last; }
        break;
      }
      last := i;
    }
    return Success, last;
  }

  lemma ChunksOfSnoc(runs: seq<ChunkExtent>, e: ChunkExtent)
    ensures ChunksOf(runs + [e]) == ChunksOf(runs) + Run(e)
  {
    assert (runs + [e])[..|runs|] == runs;
  }

  lemma RunSplits(e: ChunkExtent, t: nat)
    requires t <= e.chunkAmount
    ensures Run(e) ==
            Run(e.(chunkAmount := e.chunkAmount - t)) + Run(ChunkExtent(false, e.start + e.chunkAmount - t, t))
  {
  }

  /** A last extent that shrinks by t. */
  lemma ShorterRuns(init: seq<ChunkExtent>, e: ChunkExtent, t: nat)
    requires t < e.chunkAmount
    ensures var less, cut := e.(chunkAmount := e.chunkAmount - t), ChunkExtent(false, e.start + e.chunkAmount - t, t);
            ChunksOf(init + [e]) == ChunksOf(init + [less]) + Run(cut)
  {
    hide *;
    var less, cut := e.(chunkAmount := e.chunkAmount - t), ChunkExtent(false, e.start + e.chunkAmount - t, t);
    ChunksOfSnoc(init, e);
    ChunksOfSnoc(init, less);
    RunSplits(e, t);
    ConcatAssociates(ChunksOf(init), Run(less), Run(cut));
  }

  lemma EndOfRuns(init: seq<ChunkExtent>, e: ChunkExtent)
    requires 0 < e.chunkAmount
    ensures var chunks := ChunksOf(init + [e]);
            0 < |chunks| && chunks[|chunks| - 1] == e.start + e.chunkAmount - 1
  {
    ChunksOfSnoc(init, e);
    hide ChunksOf;
  }

  lemma CutIsShorter(init: seq<ChunkExtent>, e: ChunkExtent, t: nat)
    requires t < e.chunkAmount
    ensures CutRuns(init + [e], t) == init + [e.(chunkAmount := e.chunkAmount - t)]
  {
    assert (init + [e])[..|init|] == init;
  }

  lemma LastOccupied(table: seq<ChunkExtent>, e: ChunkExtent)
    requires 0 < Used(table) && Compact(table) && !e.isEmpty
    ensures var k := Used(table) - 1; var table' := table[k := e];
            && Compact(table') && Used(table') == Used(table)
            && Occupied(table) == table[..k] + [table[k]] && Occupied(table') == table[..k] + [e]
  {
    UsedIs(table[Used(table) - 1 := e], Used(table));
  }

  /** The table of a file whose last extent has lost its last t chunks. */
  ghost function LastCut(table: seq<ChunkExtent>, t: nat): seq<ChunkExtent>
    requires 0 < Used(table) && t < table[Used(table) - 1].chunkAmount
  {
    var e := table[Used(table) - 1];
    table[Used(table) - 1 := e.(chunkAmount := e.chunkAmount - t)]
  }

  lemma ShortenedLastExtent(table: seq<ChunkExtent>, t: nat)
    requires 0 < Used(table) && Compact(table) && t < table[Used(table) - 1].chunkAmount
    ensures var e, table' := table[Used(table) - 1], LastCut(table, t);
            && Compact(table') && Used(table') == Used(table)
            && Occupied(table') == CutRuns(Occupied(table), t)
            && TableChunks(table) == TableChunks(table') + Run(ChunkExtent(false, e.start + e.chunkAmount - t, t))
            && 0 < |TableChunks(table')|
            && TableChunks(table')[|TableChunks(table')| - 1] == e.start + e.chunkAmount - t - 1
  {
    var k := Used(table) - 1;
    var e := table[k];
    var less := e.(chunkAmount := e.chunkAmount - t);
    hide ChunksOf, CutRuns, Used, Compact, Occupied, Run;
    LastOccupied(table, e);
    LastOccupied(table, less);
    ShorterRuns(table[..k], e, t);
    EndOfRuns(table[..k], less);
    CutIsShorter(table[..k], e, t);
  }

  lemma OneShorter(table: seq<ChunkExtent>, t: nat)
    requires NoneEmpty(table) && 0 < Used(table) && t < table[Used(table) - 1].chunkAmount
    ensures NoneEmpty(LastCut(table, t))
  {
    UsedIs(LastCut(table, t), Used(table));
  }

  /** Truncating the last extent of a well-formed file by less than its size takes chunks off the end of the file. */
  method TruncateLastExtent(f: File, man: StorageMan, k: nat, t: nat) returns (status: Status)
    requires FileOn(f, man) && k + 1 == Used(f.Table()) && t < f.extents[k].chunkAmount
    modifies f`allocatedSize, f.extents, man`freeChunkCount, man.allocationMap
    ensures status == Success
    ensures FileOn(f, man) && Confined(old(ViewOf(man)), old(f.Chunks()), ViewOf(man), f.Chunks())
    ensures 0 < |f.Chunks()| == |old(f.Chunks())| - t && f.Chunks() <= old(f.Chunks())
    ensures f.Layout() == CutRuns(old(f.Layout()), t)
    ensures f.extents[k].start + f.extents[k].chunkAmount - 1 == f.Chunks()[|f.Chunks()| - 1]
  {
    hide *;
    FileParts(f, man);
    ghost var table, v0, own := f.Table(), ViewOf(man), f.Chunks();
    ghost var cut := ChunkExtent(false, table[k].start + table[k].chunkAmount - t, t);
    NoneEmptyOn(f, man);
    FreeableExtent(table, k, man.Marks());
    ShortenedLastExtent(table, t);
    OneShorter(table, t);
    LastCutIs(table, k, t);
    status := f.TruncateChunkExtent(k, t, man);
    TableFacts(f, k);
    ViewIs(man);
    UnmarkedIsReleased(v0, cut, ViewOf(man));
    ReleasedIsConfined(v0, own, f.Chunks(), Run(cut), ViewOf(man));
    Shorter(own, f.Chunks(), cut);
    FileFromParts(f, man);
  }

  lemma LastCutIs(table: seq<ChunkExtent>, k: nat, t: nat)
    requires k + 1 == Used(table) && t < table[k].chunkAmount
    ensures LastCut(table, t) == table[k := table[k].(chunkAmount := table[k].chunkAmount - t)]
  {
  }

  lemma Shorter(own: seq<nat>, kept: seq<nat>, cut: ChunkExtent)
    requires own == kept + Run(cut)
    ensures kept <= own && |kept| == |own| - cut.chunkAmount
  {
  }

  lemma TableFacts(f: File, k: nat)
    requires k < f.extents.Length
    ensures |f.Table()| == f.extents.Length && f.Table()[k] == f.extents[k]
    ensures f.Chunks() == TableChunks(f.Table()) && f.Layout() == Occupied(f.Table())
  {
  }

  /** The content of a list of chunks when the last of them loses its last rest bytes. */
  lemma RewrittenEnd(kept: seq<nat>, bytes: seq<byte>, bytes': seq<byte>, rest: nat)
    requires InBounds(kept) && Distinct(kept) && kept != [] && rest <= CHUNK_SIZE
    requires EndRewritten(kept[|kept| - 1], bytes, bytes', rest)
    ensures |Content(kept, bytes)| >= CHUNK_SIZE
    ensures Content(kept, bytes') == Content(kept, bytes)[..|Content(kept, bytes)| - rest] + Eoc(rest)
  {
    hide Content, SameOutside, InBounds, Distinct;
    var init := kept[..|kept| - 1];
    ContentLast(kept, bytes);
    ContentLast(kept, bytes');
    InitUntouched(kept, bytes, bytes');
    ReplaceEnd(Content(init, bytes), ChunkBytes(bytes, kept[|kept| - 1]), rest, Eoc(rest));
  }

  lemma InitUntouched(kept: seq<nat>, bytes: seq<byte>, bytes': seq<byte>)
    requires InBounds(kept) && Distinct(kept)
    requires kept != [] && SameOutside(bytes, bytes', kept[|kept| - 1])
    ensures Content(kept[..|kept| - 1], bytes') == Content(kept[..|kept| - 1], bytes)
  {
    ContentFrame(kept[..|kept| - 1], bytes, bytes');
  }

  /** The last rest bytes of chunk x become EOC and nothing else changes. */
  ghost predicate EndRewritten(x: nat, bytes: seq<byte>, bytes': seq<byte>, rest: nat)
    requires rest <= CHUNK_SIZE
  {
    && SameOutside(bytes, bytes', x)
    && ChunkBytes(bytes', x) == ChunkBytes(bytes, x)[..CHUNK_SIZE - rest] + Eoc(rest)
  }

  /** The content left when only the chunks kept remain and the last rest bytes of these are overwritten with EOC. */
  lemma ShortenedContent(own: seq<nat>, kept: seq<nat>, bytes: seq<byte>, bytes': seq<byte>, amount: nat)
    requires InBounds(kept) && Distinct(kept)
    requires amount <= Span(|own|) && kept <= own && 0 < |kept| == |own| - FullChunks(amount)
    requires EndRewritten(kept[|kept| - 1], bytes, bytes', Rest(amount))
    ensures |Content(own, bytes)| == Span(|own|)
    ensures Content(kept, bytes') == Shortened(Content(own, bytes), amount)
  {
    hide Content, EndRewritten, InBounds, Distinct, Shortened;
    RewrittenEnd(kept, bytes, bytes', Rest(amount));
    TruncateArithmetic(|own|, amount);
    ContentLength(own, bytes);
    ContentOfPrefix(kept, own, bytes);
    ShortenedFrom(Content(own, bytes), Content(kept, bytes), Content(kept, bytes'), amount);
  }

  lemma ShortenedFrom(content: seq<byte>, first: seq<byte>, result: seq<byte>, amount: nat)
    requires first <= content && Rest(amount) <= |first| && |content| - amount == |first| - Rest(amount)
    requires result == first[..|first| - Rest(amount)] + Eoc(Rest(amount))
    ensures result == Shortened(content, amount)
  {
    TakeTwice(content, |first|, |first| - Rest(amount));
  }

  /** The verdict on taking amount bytes off a file of size chunks. */
  ghost function TruncateStatus(size: nat, amount: nat): Status {
    if amount > Span(size) then IndexOutOfBounds else if size == 0 then FileIsEmpty else Success
  }

  /** file_truncate_by: the content loses its last amount bytes and is padded to a chunk boundary. Extents are freed
      from the last one down; the cursor stands at -1 when all of them are gone, which happens only when amount is the
      whole file. */
  method FileTruncateBy(f: File, man: StorageMan, amount: nat) returns (status: Status)
    requires FileOn(f, man)
    modifies f`allocatedSize, f.extents, man`freeChunkCount, man.allocationMap, man.storage
    ensures FileOn(f, man)
    ensures Confined(old(ViewOf(man)), old(f.Chunks()), ViewOf(man), f.Chunks())
    ensures status == TruncateStatus(old(f.allocatedSize), amount)
    ensures status == Success ==>
              && amount <= |old(ContentOn(f, man))|
              && ContentOn(f, man) == Shortened(old(ContentOn(f, man)), amount)
              && f.allocatedSize == old(f.allocatedSize) - FullChunks(amount)
              && f.Layout() == CutRuns(old(f.Layout()), FullChunks(amount))
    ensures status == Success ==>
              var was, now := old(ContentOn(f, man)), ContentOn(f, man);
              && |now| % CHUNK_SIZE == 0 && |was| - amount <= |now| < |was| - amount + CHUNK_SIZE
              && (forall k :: 0 <= k < |was| - amount ==> now[k] == was[k])
              && forall k :: |was| - amount <= k < |now| ==> now[k] == 0x1E
    ensures status != Success ==>
              && f.Table() == old(f.Table()) && f.allocatedSize == old(f.allocatedSize)
              && ViewOf(man) == old(ViewOf(man))
  {
    hide *;
    FileOnFacts(f, man);
    FileParts(f, man);
    ghost var v0, own := ViewOf(man), f.Chunks();
    NothingIsConfined(v0, own);
    TruncateStatusIs(f.allocatedSize, amount);
    var size := Product(f.allocatedSize);
    if amount > size { return IndexOutOfBounds; }
    var full, rest := Split(amount);
    TruncateArithmetic(|own|, amount);
    ContentOnIs(f, man);
    var last;
    status, last := FileGetLastChunkExtent(f);
    if status != Success { return status; }
    var cur, deleted;
    status, cur, deleted := FreeFullExtents(f, man, last, full);
    if status != Success { return status; }
    FileParts(f, man);
    if cur < 0 || f.extents[cur].isEmpty {
      OccupiedInTable(f, man);
      AllFreed(f, man, own, v0.bytes, amount);
      ShortenedBytes(Content(own, v0.bytes), amount);
      ContentOnIs(f, man);
      WholeChunks(f.Chunks(), man.Bytes());
      NothingToCut(full - deleted);
      if deleted != full { assert false; } // INDEX_OUT_OF_BOUNDS at file_logic.c:88-91 cannot happen
      return Success;
    }
    ghost var v, owned := ViewOf(man), f.Chunks();
    status := TruncateFinalExtent(f, man, cur, full - deleted, rest);
    ConfinedTwice(v0, own, v, owned, ViewOf(man), f.Chunks());
    FileParts(f, man);
    ContentOnIs(f, man);
    PrefixOfPrefix(f.Chunks(), owned, own);
    OwnedParts(f.Chunks(), man.Marks());
    ShortenedContent(own, f.Chunks(), v0.bytes, man.Bytes(), amount);
    ShortenedBytes(Content(own, v0.bytes), amount);
    WholeChunks(f.Chunks(), man.Bytes());
  }

  /** The answers of a truncation in terms of bytes. */
  lemma TruncateAnswers(size: nat, amount: nat)
    ensures var status := TruncateStatus(size, amount);
            && (status == IndexOutOfBounds <==> amount > size * CHUNK_SIZE)
            && (status == FileIsEmpty <==> size == 0 && amount == 0)
            && (status == Success <==> 0 < size && amount <= size * CHUNK_SIZE)
  {
    SpanIsProduct(size);
  }

  lemma TruncateStatusIs(size: nat, amount: nat)
    ensures TruncateStatus(size, amount) ==
            if amount > Span(size) then IndexOutOfBounds else if size == 0 then FileIsEmpty else Success
  {
  }

  lemma ContentOnIs(f: File, man: StorageMan)
    ensures ContentOn(f, man) == Content(f.Chunks(), man.Bytes()) && |ContentOn(f, man)| == Span(|f.Chunks()|)
  {
    ContentLength(f.Chunks(), man.Bytes());
  }

  lemma OccupiedInTable(f: File, man: StorageMan)
    requires FileOn(f, man)
    ensures forall i :: 0 <= i < Used(f.Table()) ==> i < f.extents.Length && !f.extents[i].isEmpty
    ensures Used(f.Table()) == 0 ==> f.Layout() == []
  {
  }

  /** The state in which every extent has been freed: the amount was the whole file. */
  lemma AllFreed(f: File, man: StorageMan, own: seq<nat>, bytes: seq<byte>, amount: nat)
    requires f.Chunks() == [] && amount <= Span(|own|) && |own| == FullChunks(amount)
    ensures |Content(own, bytes)| == Span(|own|) && ContentOn(f, man) == Shortened(Content(own, bytes), amount)
  {
    ContentLength(own, bytes);
    TruncateArithmetic(|own|, amount);
  }

  lemma NothingToCut(n: nat)
    ensures CutRuns([], n) == []
  {
  }

  lemma OwnedParts(chunks: seq<nat>, marks: seq<bool>)
    requires Owned(chunks, marks)
    ensures InBounds(chunks) && Distinct(chunks)
  {
  }

  lemma CutLast(runs: seq<ChunkExtent>, n: nat)
    requires runs != [] && runs[|runs| - 1].chunkAmount <= n
    ensures CutRuns(runs, n) == CutRuns(runs[..|runs| - 1], n - runs[|runs| - 1].chunkAmount)
  {
  }

  /** The loop of file_truncate_by: frees extents from the last one down while they fit into the full chunks to
      delete. */
  method FreeFullExtents(f: File, man: StorageMan, last: nat, full: nat)
    returns (status: Status, cur: int, deleted: nat)
    requires FileOn(f, man) && last + 1 == Used(f.Table()) && full <= |f.Chunks()|
    modifies f`allocatedSize, f.extents, man`freeChunkCount, man.allocationMap
    ensures status == Success
    ensures FileOn(f, man) && Confined(old(ViewOf(man)), old(f.Chunks()), ViewOf(man), f.Chunks())
    ensures -1 <= cur < MAX_FILE_CHUNK_EXTENTS_AMOUNT && Used(f.Table()) == cur + 1
    ensures deleted <= full && |f.Chunks()| == |old(f.Chunks())| - deleted && f.Chunks() <= old(f.Chunks())
    ensures if cur == -1 then f.Chunks() == [] else full - deleted < f.extents[cur].chunkAmount
    ensures CutRuns(f.Layout(), full - deleted) == CutRuns(old(f.Layout()), full)
  {
    hide *;
    FileParts(f, man);
    ghost var v0, own, runs := ViewOf(man), f.Chunks(), f.Layout();
    NothingIsConfined(v0, own);
    cur, deleted := last, 0;
    while cur >= 0
      invariant -1 <= cur < MAX_FILE_CHUNK_EXTENTS_AMOUNT && Used(f.Table()) == cur + 1
      invariant FileOn(f, man) && Confined(v0, own, ViewOf(man), f.Chunks())
      invariant deleted <= full && |f.Chunks()| == |own| - deleted && f.Chunks() <= own
      invariant CutRuns(f.Layout(), full - deleted) == CutRuns(runs, full)
    {
      FileParts(f, man);
      if deleted + f.extents[cur].chunkAmount > full { break; }
      ghost var v, owned, layout, e := ViewOf(man), f.Chunks(), f.Layout(), f.Table()[cur];
      LastOfLayout(f, man, cur);
      CutLast(layout, full - deleted);
      status := FreeEndExtent(f, man, cur);
      if status != Success { return status, cur, deleted; }
      ConfinedTwice(v0, own, v, owned, ViewOf(man), f.Chunks());
      ShorterPrefix(own, owned, f.Chunks(), Run(e));
      RunLength(e);
      StaleAmount(f, man, cur, e);
      deleted := deleted + f.extents[cur].chunkAmount;
      cur := cur - 1;
    }
    FileOnFacts(f, man);
    return Success, cur, deleted;
  }

  lemma LastOfLayout(f: File, man: StorageMan, k: nat)
    requires FileOn(f, man) && k + 1 == Used(f.Table())
    ensures |f.Layout()| == k + 1 && f.Layout()[k] == f.Table()[k]
    ensures k < f.extents.Length && f.Table()[k] == f.extents[k]
  {
  }

  lemma ShorterPrefix(own: seq<nat>, owned: seq<nat>, kept: seq<nat>, gone: seq<nat>)
    requires owned <= own && owned == kept + gone
    ensures kept <= own && |kept| == |owned| - |gone|
  {
  }

  /** An extent that has been freed keeps its numbers in the table, and the loop reads them after it. */
  lemma StaleAmount(f: File, man: StorageMan, k: nat, e: ChunkExtent)
    requires FileOn(f, man) && k < |f.Table()| && f.Table()[k] == Emptied(e)
    ensures k < f.extents.Length && f.extents[k].chunkAmount == e.chunkAmount
  {
  }

  /** The end of file_truncate_by: the extent under the cursor loses its last t chunks and the chunk that is then the
      last of the file its last rest bytes. */
  method TruncateFinalExtent(f: File, man: StorageMan, cur: nat, t: nat, rest: nat) returns (status: Status)
    requires FileOn(f, man) && cur + 1 == Used(f.Table()) && t < f.extents[cur].chunkAmount && rest < CHUNK_SIZE
    modifies f`allocatedSize, f.extents, man`freeChunkCount, man.allocationMap, man.storage
    ensures status == Success
    ensures FileOn(f, man) && Confined(old(ViewOf(man)), old(f.Chunks()), ViewOf(man), f.Chunks())
    ensures 0 < |f.Chunks()| == |old(f.Chunks())| - t && f.Chunks() <= old(f.Chunks())
    ensures f.Layout() == CutRuns(old(f.Layout()), t)
    ensures EndRewritten(f.Chunks()[|f.Chunks()| - 1], old(man.Bytes()), man.Bytes(), rest)
  {
    hide *;
    FileParts(f, man);
    if f.extents[cur].chunkAmount <= t { return IndexOutOfBounds; }
    ghost var v0, own := ViewOf(man), f.Chunks();
    status := TruncateLastExtent(f, man, cur, t);
    if status != Success { return status; }
    FileParts(f, man);
    ghost var v, bytes, x := ViewOf(man), man.Bytes(), f.Chunks()[|f.Chunks()| - 1];
    PositionFacts(f, man, |f.Chunks()| - 1);
    var finalChunk := f.extents[cur].start + f.extents[cur].chunkAmount - 1;
    if rest == 0 {
      NothingRewritten(x, bytes);
      return Success;
    }
    status := man.Chtrunc(finalChunk, rest);
    ViewIs(man);
    IsRewritten(x, bytes, man.Bytes(), rest, f.Chunks());
    ConfinedRewrite(v0, own, v, f.Chunks(), ViewOf(man));
  }

  lemma NothingRewritten(x: nat, bytes: seq<byte>)
    ensures EndRewritten(x, bytes, bytes, 0)
  {
  }

  lemma IsRewritten(x: nat, bytes: seq<byte>, bytes': seq<byte>, rest: nat, own: seq<nat>)
    requires rest <= CHUNK_SIZE && x in own && SameOutside(bytes, bytes', x)
    requires ChunkBytes(bytes', x) == ChunkBytes(bytes, x)[..CHUNK_SIZE - rest] + Eoc(rest)
    ensures EndRewritten(x, bytes, bytes', rest)
    ensures forall c: nat :: c < CHUNKS_AMOUNT && c !in own ==> ChunkBytes(bytes', c) == ChunkBytes(bytes, c)
  {
  }

  /** A file without occupied extents owns nothing, and one whose extents are not empty of chunks owns something. */
  lemma UsedNothing(table: seq<ChunkExtent>)
    requires forall i :: 0 <= i < Used(table) ==> 0 < table[i].chunkAmount
    ensures TableChunks(table) == [] <==> Used(table) == 0
  {
    var n := Used(table);
    if n > 0 {
      ChunksOfSplit(table[..n], n - 1);
    } else {
      assert table[..0] == [];
    }
  }

  // ---- Read --------------------------------------------------------------------------

  /** The verdict on a chunk position within a file, which need not be well formed. */
  ghost function ChunkIndexStatus(f: File, position: nat): Status
    requires f.Shaped()
    reads f, f.extents
  {
    if position >= f.allocatedSize then IndexOutOfBounds
    else if position < |f.Chunks()| then Success
    else if Used(f.Table()) < MAX_FILE_CHUNK_EXTENTS_AMOUNT then NotFoundChunksTerminated
    else ChunkDoesNotBelongToFile
  }

  ghost function ChunkIndex(f: File, position: nat): nat
    requires f.Shaped() && ChunkIndexStatus(f, position) == Success
    reads f, f.extents
  {
    f.Chunks()[position]
  }

  /** get_chunk_index: translates a chunk position within the file into a chunk of the disk. */
  method GetChunkIndex(f: File, position: nat) returns (status: Status, chunk: nat)
    requires f.Shaped()
    ensures status == ChunkIndexStatus(f, position)
    ensures status == Success ==> chunk == ChunkIndex(f, position)
  {
    chunk := 0;
    if position >= f.allocatedSize { return IndexOutOfBounds, chunk; }
    ghost var runs := f.Table()[..Used(f.Table())];
    var relativeStart, cur := 0, 0;
    while true
      invariant 0 <= cur <= |runs|
      invariant relativeStart == |ChunksOf(runs[..cur])| <= position
      decreases |runs| - cur
    {
      if cur >= MAX_FILE_CHUNK_EXTENTS_AMOUNT {
        assert runs[..cur] == runs;
        return ChunkDoesNotBelongToFile, chunk;
      }
      if f.extents[cur].isEmpty {
        assert runs[..cur] == runs;
        return NotFoundChunksTerminated, chunk;
      }
      ChunksOfNext(runs, cur);
      assert runs[cur] == f.extents[cur];
      if position < relativeStart + f.extents[cur].chunkAmount { break; }
      relativeStart := relativeStart + f.extents[cur].chunkAmount;
      cur := cur + 1;
    }
    return Success, f.extents[cur].start + (position - relativeStart);
  }

  /** The answers of get_chunk_index on any table, well formed or not. */
  lemma ChunkIndexAnswers(f: File, position: nat)
    requires f.Shaped()
    ensures var status, there := ChunkIndexStatus(f, position), Total(f.Layout());
            && (status == IndexOutOfBounds <==> position >= f.allocatedSize)
            && (status == Success <==> position < f.allocatedSize && position < there)
            && (status == NotFoundChunksTerminated <==>
                 && there <= position < f.allocatedSize
                 && exists j :: 0 <= j < f.extents.Length && f.extents[j].isEmpty)
            && (status == ChunkDoesNotBelongToFile <==>
                 && there <= position < f.allocatedSize
                 && forall j :: 0 <= j < f.extents.Length ==> !f.extents[j].isEmpty)
  {
    TotalIsLength(f.Layout());
    var n := Used(f.Table());
    assert f.Chunks() == ChunksOf(f.Layout());
    assert n < f.extents.Length ==> f.extents[n].isEmpty;
    assert forall j :: 0 <= j < n ==> !f.extents[j].isEmpty;
    hide Used, ChunksOf, Total, Occupied;
  }

  lemma ChunksOfNext(runs: seq<ChunkExtent>, cur: nat)
    requires cur < |runs|
    ensures |ChunksOf(runs[..cur + 1])| == |ChunksOf(runs[..cur])| + runs[cur].chunkAmount <= |ChunksOf(runs)|
    ensures var at := |ChunksOf(runs[..cur])|;
            forall p :: at <= p < at + runs[cur].chunkAmount ==> ChunksOf(runs)[p] == runs[cur].start + (p - at)
  {
    ChunksOfSplit(runs, cur);
    ChunksOfSplit(runs[..cur + 1], cur);
    assert runs[..cur + 1][..cur] == runs[..cur];
    assert runs[..cur + 1][cur + 1..] == [];
  }

  /** Where the bytes of a file lie on the disk: offset by offset in the chunks that get_chunk_index names, and these
      are counted through the extents of the table. */
  lemma ContentAddress(f: File, man: StorageMan, offset: nat)
    requires FileOn(f, man) && offset < |ContentOn(f, man)|
    ensures f.Shaped() && ChunkIndexStatus(f, offset / CHUNK_SIZE) == Success
    ensures var at := ChunkIndex(f, offset / CHUNK_SIZE) * CHUNK_SIZE + offset % CHUNK_SIZE;
            at < man.storage.Length && ContentOn(f, man)[offset] == man.storage[at]
  {
    var p := offset / CHUNK_SIZE;
    ContentOnIs(f, man);
    SplitIsDivision(offset);
    SpanOrder(p, |f.Chunks()|);
    var c := f.Chunks()[p];
    ContentOfChunk(f.Chunks(), man.Bytes(), p);
    assert Owned(f.Chunks(), man.Marks()) && c < CHUNKS_AMOUNT;
    SpanIsProduct(c);
    SpanOrder(c, CHUNKS_AMOUNT);
    ChunkAddress(man.Bytes(), c, offset % CHUNK_SIZE);
  }

  /** Behind the chunks of the extents before extent i comes its q-th chunk. */
  lemma ChunkIndexInExtents(f: File, man: StorageMan, i: nat, q: nat)
    requires FileOn(f, man) && i < |f.Layout()| && q < f.Layout()[i].chunkAmount
    ensures f.Shaped() && ChunkIndexStatus(f, Total(f.Layout()[..i]) + q) == Success
    ensures ChunkIndex(f, Total(f.Layout()[..i]) + q) == f.Layout()[i].start + q
  {
    ChunkInExtent(f.Layout(), i, q);
  }

  /** For a well-formed file get_chunk_index is a bijection from the positions below allocatedSize onto the chunks that
      file_owns_chunk accepts, so no position is answered with NOT_FOUND_CHUNKS_TERMINATED or
      CHUNK_DOES_NOT_BELONG_TO_FILE. */
  lemma ChunkIndexIsBijection(f: File, man: StorageMan)
    requires FileOn(f, man)
    ensures f.Shaped()
    ensures forall p: nat :: ChunkIndexStatus(f, p) == if p < f.allocatedSize then Success else IndexOutOfBounds
    ensures forall p: nat :: p < f.allocatedSize ==> ChunkIndex(f, p) in f.Chunks() && ChunkIndex(f, p) < CHUNKS_AMOUNT
    ensures forall p: nat, q: nat :: p < q < f.allocatedSize ==> ChunkIndex(f, p) != ChunkIndex(f, q)
    ensures forall c :: c in f.Chunks() ==> exists p: nat :: p < f.allocatedSize && ChunkIndex(f, p) == c
  {
    var chunks := f.Chunks();
    forall c | c in chunks ensures exists p: nat :: p < f.allocatedSize && ChunkIndex(f, p) == c {
      var p: nat :| p < |chunks| && chunks[p] == c;
      assert ChunkIndex(f, p) == c;
    }
  }

  lemma CopiedTwice(b0: seq<byte>, b1: seq<byte>, b2: seq<byte>, at: nat, text: seq<byte>, from: nat, m: nat, n: nat)
    requires Copied(b0, b1, at, text, from, m) && Copied(b1, b2, at + m, text, from + m, n)
    ensures Copied(b0, b2, at, text, from, m + n)
  {
    var total, at', from' := m + n, at + m, from + m;
    forall k: nat | k < |b2| ensures CopiedAt(b0, b2, at, text, from, total, k) {
      assert CopiedAt(b0, b1, at, text, from, m, k) && CopiedAt(b1, b2, at', text, from', n, k);
    }
  }

  /** Copying from a slice of text is copying from text. */
  lemma CopiedFromSlice(was: seq<byte>, now: seq<byte>, at: nat, piece: seq<byte>, start: nat, n: nat, text: seq<byte>,
                        from: nat)
    requires Copied(was, now, at, piece, start, n)
    requires from + |piece| <= |text| && piece == text[from..from + |piece|]
    ensures Copied(was, now, at, text, from + start, n)
  {
    var first := from + start;
    forall k: nat | k < |now| ensures CopiedAt(was, now, at, text, first, n, k) {
      assert CopiedAt(was, now, at, piece, start, n, k);
    }
  }

  lemma WholeCopy(was: seq<byte>, now: seq<byte>, text: seq<byte>, from: nat)
    requires Copied(was, now, 0, text, from, |now|)
    ensures now == text[from..from + |now|]
  {
    forall k | 0 <= k < |now| ensures now[k] == text[from + k] {
      assert CopiedAt(was, now, 0, text, from, |now|, k);
    }
  }

  lemma PositionFacts(f: File, man: StorageMan, position: nat)
    requires FileOn(f, man)
    ensures f.Shaped() && man.Sized() && f.allocatedSize == |f.Chunks()|
    ensures position < |f.Chunks()| ==>
              var c := f.Chunks()[position];
              c < CHUNKS_AMOUNT && c in f.Chunks() && man.Marks()[c]
  {
  }

  /** The step that both reading helpers take: find chunk position of the file and read it whole. The ownership and
      allocation checks on the way never refuse a position of a well-formed file. */
  method ReadPosition(f: File, man: StorageMan, position: nat, buffer: array<byte>, at: nat) returns (status: Status)
    requires FileOn(f, man) && buffer != man.storage && at + CHUNK_SIZE <= buffer.Length
    modifies buffer
    ensures status == if position >= f.allocatedSize then IndexOutOfBounds else Success
    ensures status != Success ==> buffer[..] == old(buffer[..])
    ensures status == Success ==>
              && Span(position) + CHUNK_SIZE <= |ContentOn(f, man)|
              && Copied(old(buffer[..]), buffer[..], at, ContentOn(f, man), Span(position), CHUNK_SIZE)
  {
    hide FileOn, Copied, Content, Used, ChunksOf;
    PositionFacts(f, man, position);
    var chunk;
    status, chunk := GetChunkIndex(f, position);
    if status != Success { return status; }
    ContentOfChunk(f.Chunks(), man.Bytes(), position);
    status := f.ReadChunk(man, chunk, buffer, at, CHUNK_SIZE);
    CopiedFromSlice(old(buffer[..]), buffer[..], at, ChunkBytes(man.Bytes(), chunk), 0, CHUNK_SIZE,
                    ContentOn(f, man), Span(position));
  }

  /** read_chunk_from_until: amount bytes of one chunk of the file, from start on, go to the buffer position at. */
  method ReadChunkFromUntil(man: StorageMan, f: File, start: nat, amount: nat, position: nat, buffer: array<byte>,
                            at: nat)
    returns (status: Status, next: nat)
    requires FileOn(f, man) && buffer != man.storage && at + amount <= buffer.Length
    modifies buffer
    ensures status == (if start + amount > CHUNK_SIZE then DataOverFlow
                       else if position >= f.allocatedSize then IndexOutOfBounds
                       else Success)
    ensures status != Success ==> buffer[..] == old(buffer[..]) && next == at
    ensures status == Success ==>
              var from := Span(position) + start;
              && next == at + amount && from + amount <= |ContentOn(f, man)|
              && Copied(old(buffer[..]), buffer[..], at, ContentOn(f, man), from, amount)
  {
    hide FileOn, ContentOn, Copied;
    next := at;
    if start + amount > CHUNK_SIZE { return DataOverFlow, next; }
    var temp := new byte[CHUNK_SIZE];
    ghost var was := temp[..];
    status := ReadPosition(f, man, position, temp, 0);
    if status != Success { return status, next; }
    var upper := CHUNK_SIZE;
    if start + amount < upper { upper := start + amount; }
    WholeCopy(was, temp[..], ContentOn(f, man), Span(position));
    next := CopyPiece(temp, start, upper, buffer, at);
    CopiedFromSlice(old(buffer[..]), buffer[..], at, temp[..], start, amount, ContentOn(f, man), Span(position));
    return Success, next;
  }

  /** The copying loop of read_chunk_from_until. */
  method CopyPiece(temp: array<byte>, start: nat, upper: nat, buffer: array<byte>, at: nat) returns (next: nat)
    requires temp != buffer && start <= upper <= temp.Length && at + (upper - start) <= buffer.Length
    modifies buffer
    ensures next == at + (upper - start)
    ensures Copied(old(buffer[..]), buffer[..], at, temp[..], start, upper - start)
  {
    next := at;
    for i := start to upper
      invariant next == at + (i - start)
      invariant forall k :: at <= k < next ==> buffer[k] == temp[start + (k - at)]
      invariant forall k :: 0 <= k < buffer.Length && !(at <= k < next) ==> buffer[k] == old(buffer[k])
    {
      buffer[next] := temp[i];
      next := next + 1;
    }
  }

  /** How many of n chunks from position on a file of size chunks has. */
  ghost function ChunksThere(size: nat, position: nat, n: nat): nat {
    if position + n <= size then n else if position < size then size - position else 0
  }

  /** A run of reads stops at the end of the file. */
  lemma ChunksThereIs(size: nat, position: nat, n: nat)
    ensures var m := ChunksThere(size, position, n);
            && m <= n && (m > 0 ==> position + m <= size) && (m < n ==> position + m >= size)
  {
  }

  /** read_full_chunks_and_update_buffer_pointer: n whole chunks of the file, from position on, go to the buffer. A run
      that leaves the file is read up to the end of the file. */
  method ReadFullChunks(f: File, position: nat, man: StorageMan, buffer: array<byte>, at: nat, n: nat)
    returns (status: Status, next: nat)
    requires FileOn(f, man) && buffer != man.storage && at + Span(n) <= buffer.Length
    modifies buffer
    ensures status == if n == 0 || position + n <= f.allocatedSize then Success else IndexOutOfBounds
    ensures var m := ChunksThere(f.allocatedSize, position, n);
            && next == at + Span(m)
            && (m == 0 ==> buffer[..] == old(buffer[..]))
            && (0 < m ==> Copied(old(buffer[..]), buffer[..], at, ContentOn(f, man), Span(position), Span(m)))
  {
    hide *;
    ghost var was := buffer[..];
    SpanOfNothing();
    var size := Product(n);
    var upper := at + size;
    var cur := position;
    next := at;
    while next < upper
      invariant position <= cur <= position + n && next == at + Span(cur - position) <= upper
      invariant FileOn(f, man) && ContentOn(f, man) == old(ContentOn(f, man))
      invariant cur == position || cur <= f.allocatedSize
      invariant if cur == position then buffer[..] == was
                else Copied(was, buffer[..], at, ContentOn(f, man), Span(position), Span(cur - position))
      decreases position + n - cur
    {
      SpanOrder(cur - position, n);
      ghost var before := buffer[..];
      status := ReadPosition(f, man, cur, buffer, next);
      ThereIs(f.allocatedSize, position, n);
      if status != Success { return status, next; }
      OneMoreChunk(was, before, buffer[..], at, ContentOn(f, man), position, cur - position);
      SpanOfNext(cur - position);
      cur := cur + 1;
      next := next + CHUNK_SIZE;
    }
    SpanOrder(cur - position, n);
    ThereIs(f.allocatedSize, position, n);
    return Success, next;
  }

  lemma ThereIs(size: nat, position: nat, n: nat)
    ensures ChunksThere(size, position, n) ==
            if position + n <= size then n else if position < size then size - position else 0
  {
  }

  lemma OneMoreChunk(was: seq<byte>, before: seq<byte>, now: seq<byte>, at: nat, content: seq<byte>, position: nat,
                     m: nat)
    requires if m == 0 then before == was else Copied(was, before, at, content, Span(position), Span(m))
    requires Copied(before, now, at + Span(m), content, Span(position + m), CHUNK_SIZE)
    ensures Copied(was, now, at, content, Span(position), Span(m + 1))
  {
    SpanAdd(position, m);
    SpanOfNext(m);
    if m > 0 {
      hide Copied;
      CopiedTwice(was, before, now, at, content, Span(position), Span(m), CHUNK_SIZE);
    }
  }

  lemma FullChunksFit(f: File, man: StorageMan, position: nat, n: nat)
    requires FileOn(f, man) && position + n <= f.allocatedSize
    ensures Span(position) + Span(n) == Span(position + n) <= Span(f.allocatedSize) == |ContentOn(f, man)|
  {
    ContentLength(f.Chunks(), man.Bytes());
    SpanAdd(position, n);
    SpanOrder(f.allocatedSize, position + n);
  }

  /** The pieces of a read that spans chunks: the end of the first chunk, whole chunks, the start of the last one. */
  lemma ReadSplit(size: nat, offset: nat, amount: nat, first: nat)
    requires offset + amount <= Span(size) && first == CHUNK_SIZE - Rest(offset) < amount
    ensures var q, full := FullChunks(offset), FullChunks(amount - first);
            && Span(q + 1) == offset + first
            && Span(q + 1 + full) == offset + first + Span(full)
            && q + 1 + full <= size
            && (0 < Rest(amount - first) ==> q + 1 + full < size)
  {
    var q, full := FullChunks(offset), FullChunks(amount - first);
    SpanAdd(q + 1, full);
    SpanOrder(size, q + 1 + full);
    SpanOrder(q + 1 + full, size);
  }

  /** file_read_at: for every offset and amount within the file, and a buffer with room, exactly the addressed slice of
      the content arrives at the front of the buffer, however it is cut into chunks and extents. */
  method FileReadAt(f: File, man: StorageMan, offset: nat, amount: nat, buffer: array<byte>, bufferSize: nat)
    returns (status: Status)
    requires FileOn(f, man) && buffer != man.storage && bufferSize <= buffer.Length
    modifies buffer
    ensures status == (if offset + amount > Span(f.allocatedSize) then IndexOutOfBounds
                       else if amount == 0 then InvalidOperation
                       else if bufferSize < amount then InsufficientArrayPassed
                       else Success)
    ensures status != Success ==> buffer[..] == old(buffer[..])
    ensures status == Success ==>
              && offset + amount <= |ContentOn(f, man)|
              && Copied(old(buffer[..]), buffer[..], 0, ContentOn(f, man), offset, amount)
    ensures status == Success ==>
              && amount <= buffer.Length
              && (forall k :: 0 <= k < amount ==> buffer[k] == ContentOn(f, man)[offset + k])
              && forall k :: amount <= k < buffer.Length ==> buffer[k] == old(buffer[..])[k]
  {
    hide FileOn, ContentOn, Copied;
    var size := Product(f.allocatedSize);
    if offset + amount > size { return IndexOutOfBounds; }
    if amount == 0 { return InvalidOperation; }
    if bufferSize < amount { return InsufficientArrayPassed; }
    FullChunksFit(f, man, f.allocatedSize, 0);
    var firstIndex, firstOffset := Split(offset);
    SpanOrder(firstIndex, f.allocatedSize);
    var firstSize := CHUNK_SIZE - firstOffset;
    var early := false;
    if amount <= firstSize {
      firstSize := amount;
      early := true;
    }
    ghost var was := buffer[..];
    var next;
    status, next := ReadChunkFromUntil(man, f, firstOffset, firstSize, firstIndex, buffer, 0);
    if status != Success { return status; }
    assert Span(firstIndex) + firstOffset == offset;
    if early {
      CopiedBytes(was, buffer[..], ContentOn(f, man), offset, amount);
      return Success;
    }
    status := ReadFromSecondChunk(f, man, offset, amount, firstSize, firstIndex, buffer, was);
    CopiedBytes(was, buffer[..], ContentOn(f, man), offset, amount);
  }

  /** The part of file_read_at after the first chunk, which has delivered firstSize bytes: whole chunks, then a partial
      one. */
  method ReadFromSecondChunk(f: File, man: StorageMan, offset: nat, amount: nat, firstSize: nat, firstIndex: nat,
                             buffer: array<byte>, ghost was: seq<byte>)
    returns (status: Status)
    requires FileOn(f, man) && buffer != man.storage && amount <= buffer.Length
    requires offset + amount <= Span(f.allocatedSize) == |ContentOn(f, man)|
    requires firstIndex == FullChunks(offset) && firstSize == CHUNK_SIZE - Rest(offset) < amount
    requires Copied(was, buffer[..], 0, ContentOn(f, man), offset, firstSize)
    modifies buffer
    ensures status == Success
    ensures Copied(was, buffer[..], 0, ContentOn(f, man), offset, amount)
  {
    hide *;
    ghost var content := ContentOn(f, man);
    ReadSplit(f.allocatedSize, offset, amount, firstSize);
    var full, lastSize := Split(amount - firstSize);
    FullAndRest(amount - firstSize);
    SpanOfNothing();
    var next := firstSize;
    if full > 0 {
      ghost var before := buffer[..];
      ThereIs(f.allocatedSize, firstIndex + 1, full);
      status, next := ReadFullChunks(f, firstIndex + 1, man, buffer, next, full);
      if status != Success { return status; }
      CopiedTwice(was, before, buffer[..], 0, content, offset, firstSize, Span(full));
    }
    if lastSize == 0 { return Success; }
    ghost var before := buffer[..];
    var lastIndex := firstIndex + 1 + full;
    status, next := ReadChunkFromUntil(man, f, 0, lastSize, lastIndex, buffer, next);
    CopiedTwice(was, before, buffer[..], 0, content, offset, amount - lastSize, lastSize);
  }

  lemma FullAndRest(n: nat)
    ensures Span(FullChunks(n)) + Rest(n) == n && Rest(n) < CHUNK_SIZE
  {
  }
}
