/** Chunk extents as values: the table of a file, the chunks it stands for and the bytes they hold. */
module Extents {
  import opened Settings
  import opened ChunkMath
  import opened Storage
  import opened Seqs

  /** start and chunkAmount of an empty extent mean nothing. */
  datatype ChunkExtent = ChunkExtent(isEmpty: bool, start: nat, chunkAmount: nat)

  // ---- Extent tables -----------------------------------------------------------------

  /** The length of the occupied prefix of a table. */
  ghost function Used(table: seq<ChunkExtent>): (n: nat)
    ensures n <= |table|
    ensures forall i :: 0 <= i < n ==> !table[i].isEmpty
    ensures n < |table| ==> table[n].isEmpty
  {
    if table == [] || table[0].isEmpty then 0 else 1 + Used(table[1..])
  }

  /** Occupied extents form a prefix. */
  ghost predicate Compact(table: seq<ChunkExtent>) {
    forall i :: Used(table) <= i < |table| ==> table[i].isEmpty
  }

  /** The chunks of one extent, in order. */
  ghost function Run(e: ChunkExtent): seq<nat> {
    seq(e.chunkAmount, i requires 0 <= i => e.start + i)
  }

  /** The chunks of a list of extents, in order. */
  ghost function ChunksOf(runs: seq<ChunkExtent>): seq<nat> {
    if runs == [] then [] else ChunksOf(runs[..|runs| - 1]) + Run(runs[|runs| - 1])
  }

  ghost function Occupied(table: seq<ChunkExtent>): seq<ChunkExtent> {
    table[..Used(table)]
  }

  ghost function TableChunks(table: seq<ChunkExtent>): seq<nat> {
    ChunksOf(Occupied(table))
  }

  /** A list of extents without its last n chunks: whole extents go from the end, and the one that is left over
      shrinks. */
  ghost function CutRuns(runs: seq<ChunkExtent>, n: nat): seq<ChunkExtent> {
    if runs == [] then []
    else
      var init, e := runs[..|runs| - 1], runs[|runs| - 1];
      if e.chunkAmount <= n then CutRuns(init, n - e.chunkAmount)
      else init + [e.(chunkAmount := e.chunkAmount - n)]
  }

  lemma NoChunks()
    ensures ChunksOf([]) == [] && forall n :: CutRuns([], n) == []
  {
  }

  lemma ChunksOfLast(runs: seq<ChunkExtent>)
    requires runs != []
    ensures ChunksOf(runs) == ChunksOf(runs[..|runs| - 1]) + Run(runs[|runs| - 1])
  {
  }

  lemma ChunksOfOne(e: ChunkExtent)
    ensures ChunksOf([e]) == Run(e) && |Run(e)| == e.chunkAmount
  {
    assert [e][..0] == [];
  }

  lemma {:induction false} ChunksOfAppend(a: seq<ChunkExtent>, b: seq<ChunkExtent>)
    ensures ChunksOf(a + b) == ChunksOf(a) + ChunksOf(b)
  {
    hide *;
    if b == [] {
      NoChunks();
      NothingToConcat(a);
      NothingToConcat(ChunksOf(a));
    } else {
      var n := |b| - 1;
      ChunksOfAppend(a, b[..n]);
      CutConcat(a, b, 1);
      ChunksOfLast(a + b);
      ChunksOfLast(b);
      ConcatAssociates(ChunksOf(a), ChunksOf(b[..n]), Run(b[n]));
    }
  }

  lemma ChunksOfSplit(runs: seq<ChunkExtent>, i: nat)
    requires i < |runs|
    ensures ChunksOf(runs) == ChunksOf(runs[..i]) + Run(runs[i]) + ChunksOf(runs[i + 1..])
  {
    hide *;
    var upTo := runs[..i + 1];
    SplitAt(runs, i, i + 1);
    PrefixSplits(upTo, runs);
    ChunksOfAppend(upTo, runs[i + 1..]);
    ChunksOfLast(upTo);
    TakeTwice(runs, i + 1, i);
  }

  lemma CutRunsLast(runs: seq<ChunkExtent>, n: nat)
    requires runs != []
    ensures var init, e := runs[..|runs| - 1], runs[|runs| - 1];
            CutRuns(runs, n) == if e.chunkAmount <= n then CutRuns(init, n - e.chunkAmount)
                                else init + [e.(chunkAmount := e.chunkAmount - n)]
  {
  }

  lemma ShorterRun(e: ChunkExtent, n: nat)
    requires n <= e.chunkAmount
    ensures Run(e.(chunkAmount := e.chunkAmount - n)) == Run(e)[..|Run(e)| - n]
  {
  }

  /** Cutting the extents cuts the list of chunks. */
  lemma {:induction false} CutRunsCutsChunks(runs: seq<ChunkExtent>, n: nat)
    requires n <= |ChunksOf(runs)|
    ensures ChunksOf(CutRuns(runs, n)) == ChunksOf(runs)[..|ChunksOf(runs)| - n]
  {
    hide *;
    if runs == [] {
      NoChunks();
    } else {
      var init, e := runs[..|runs| - 1], runs[|runs| - 1];
      ChunksOfLast(runs);
      ChunksOfOne(e);
      CutRunsLast(runs, n);
      if e.chunkAmount <= n {
        CutRunsCutsChunks(init, n - e.chunkAmount);
        PrefixOfConcat(ChunksOf(init), Run(e), |ChunksOf(runs)| - n);
      } else {
        var less := e.(chunkAmount := e.chunkAmount - n);
        ShorterRun(e, n);
        ChunksOfAppend(init, [less]);
        ChunksOfOne(less);
        CutConcat(ChunksOf(init), Run(e), n);
      }
    }
  }

  /** What is left of the extents: a prefix, in which only the last one may have become shorter. */
  lemma {:induction false} CutRunsIsPrefix(runs: seq<ChunkExtent>, n: nat)
    ensures var r := CutRuns(runs, n);
            && |r| <= |runs| && (forall i :: 0 <= i < |r| - 1 ==> r[i] == runs[i])
            && (r != [] ==>
                 var last, was := r[|r| - 1], runs[|r| - 1];
                 0 < last.chunkAmount <= was.chunkAmount && last == was.(chunkAmount := last.chunkAmount))
    decreases |runs|
  {
    if runs == [] {
      NoChunks();
    } else {
      var init, e := runs[..|runs| - 1], runs[|runs| - 1];
      CutRunsLast(runs, n);
      hide *;
      if e.chunkAmount <= n {
        CutRunsIsPrefix(init, n - e.chunkAmount);
      }
    }
  }

  /** The number of chunks, by the amounts in the extents. */
  ghost function Total(runs: seq<ChunkExtent>): nat {
    if runs == [] then 0 else Total(runs[..|runs| - 1]) + runs[|runs| - 1].chunkAmount
  }

  lemma {:induction false} TotalIsLength(runs: seq<ChunkExtent>)
    ensures |ChunksOf(runs)| == Total(runs)
  {
    if runs != [] { TotalIsLength(runs[..|runs| - 1]); }
  }

  /** The chunks of a file are counted through its extents: behind those of the first i extents comes the q-th chunk of
      extent i. */
  lemma ChunkInExtent(runs: seq<ChunkExtent>, i: nat, q: nat)
    requires i < |runs| && q < runs[i].chunkAmount
    ensures Total(runs[..i]) + q < |ChunksOf(runs)| == Total(runs)
    ensures ChunksOf(runs)[Total(runs[..i]) + q] == runs[i].start + q
  {
    ChunksOfSplit(runs, i);
    TotalIsLength(runs[..i]);
    TotalIsLength(runs);
    hide ChunksOf, Total;
    assert Run(runs[i])[q] == runs[i].start + q;
  }

  lemma RunMember(e: ChunkExtent, c: nat)
    ensures c in Run(e) <==> e.start <= c < e.start + e.chunkAmount
  {
    if e.start <= c < e.start + e.chunkAmount { assert Run(e)[c - e.start] == c; }
  }

  /** A chunk belongs to a list of extents exactly when it lies within one of them. */
  lemma {:induction false} ChunksOfMember(runs: seq<ChunkExtent>, c: nat)
    ensures c in ChunksOf(runs) <==>
              exists i :: 0 <= i < |runs| && runs[i].start <= c < runs[i].start + runs[i].chunkAmount
  {
    hide *;
    if runs == [] {
      NoChunks();
    } else {
      var n := |runs| - 1;
      ChunksOfMember(runs[..n], c);
      ChunksOfLast(runs);
      InConcat(ChunksOf(runs[..n]), Run(runs[n]), c);
      RunMember(runs[n], c);
    }
  }

  // ---- Ownership ---------------------------------------------------------------------

  ghost predicate InBounds(chunks: seq<nat>) {
    forall k :: 0 <= k < |chunks| ==> chunks[k] < CHUNKS_AMOUNT
  }

  ghost predicate Distinct(chunks: seq<nat>) {
    forall j, k :: 0 <= j < k < |chunks| ==> chunks[j] != chunks[k]
  }

  /** A list of chunks that a file may own: existing, without repetition, all marked as allocated. */
  ghost predicate Owned(chunks: seq<nat>, marks: seq<bool>) {
    && |marks| == CHUNKS_AMOUNT
    && InBounds(chunks) && Distinct(chunks)
    && forall k :: 0 <= k < |chunks| ==> marks[chunks[k]]
  }

  lemma RunOfOwned(runs: seq<ChunkExtent>, i: nat, marks: seq<bool>)
    requires i < |runs| && Owned(ChunksOf(runs), marks) && 0 < runs[i].chunkAmount
    ensures runs[i].start + runs[i].chunkAmount <= CHUNKS_AMOUNT
    ensures forall c :: runs[i].start <= c < runs[i].start + runs[i].chunkAmount ==> marks[c]
  {
    var e := runs[i];
    forall c | e.start <= c < e.start + e.chunkAmount ensures c < CHUNKS_AMOUNT && marks[c] {
      ChunksOfMember(runs, c);
    }
    ChunksOfMember(runs, e.start + e.chunkAmount - 1);
  }

  // ---- Content -----------------------------------------------------------------------

  /** The bytes stored in a list of chunks, in order: what a file with those chunks contains. */
  ghost function Content(chunks: seq<nat>, bytes: seq<byte>): seq<byte>
  {
    if chunks == [] then []
    else Content(chunks[..|chunks| - 1], bytes) + ChunkBytes(bytes, chunks[|chunks| - 1])
  }

  lemma ContentLast(chunks: seq<nat>, bytes: seq<byte>)
    requires chunks != []
    ensures var n := |chunks| - 1;
            Content(chunks, bytes) == Content(chunks[..n], bytes) + ChunkBytes(bytes, chunks[n])
  {
  }

  lemma {:induction false} ContentLength(chunks: seq<nat>, bytes: seq<byte>)
    ensures |Content(chunks, bytes)| == Span(|chunks|)
  {
    if chunks != [] {
      var n := |chunks| - 1;
      ContentLength(chunks[..n], bytes);
    }
  }

  lemma NoContentAtAll(bytes: seq<byte>)
    ensures Content([], bytes) == []
  {
  }

  lemma {:induction false} ContentAppend(a: seq<nat>, b: seq<nat>, bytes: seq<byte>)
    ensures Content(a + b, bytes) == Content(a, bytes) + Content(b, bytes)
  {
    hide *;
    if b == [] {
      NoContentAtAll(bytes);
      NothingToConcat(a);
      NothingToConcat(Content(a, bytes));
    } else {
      var n := |b| - 1;
      ContentAppend(a, b[..n], bytes);
      CutConcat(a, b, 1);
      ContentLast(a + b, bytes);
      ContentLast(b, bytes);
      ConcatAssociates(Content(a, bytes), Content(b[..n], bytes), ChunkBytes(bytes, b[n]));
    }
  }

  lemma ContentOfPrefix(kept: seq<nat>, own: seq<nat>, bytes: seq<byte>)
    requires kept <= own
    ensures |Content(kept, bytes)| == Span(|kept|) <= |Content(own, bytes)|
    ensures Content(kept, bytes) <= Content(own, bytes)
  {
    var tail := own[|kept|..];
    ContentLength(kept, bytes);
    PrefixSplits(kept, own);
    ContentAppend(kept, tail, bytes);
    PrefixOfConcat(Content(kept, bytes), Content(tail, bytes), Span(|kept|));
  }

  /** Chunks i to j of a file hold bytes Span(i) to Span(j) of its content. */
  lemma ContentSlice(chunks: seq<nat>, bytes: seq<byte>, i: nat, j: nat)
    requires i <= j <= |chunks|
    ensures Span(i) <= Span(j) <= |Content(chunks, bytes)|
    ensures Content(chunks[i..j], bytes) == Content(chunks, bytes)[Span(i)..Span(j)]
  {
    hide *;
    SpanOrder(j, i);
    SplitAt(chunks, i, j);
    ContentOfPrefix(chunks[..j], chunks, bytes);
    ContentOfPrefix(chunks[..i], chunks[..j], bytes);
    ContentAppend(chunks[..i], chunks[i..j], bytes);
    MiddleOfPrefix(Content(chunks, bytes), Content(chunks[..j], bytes), Content(chunks[..i], bytes),
                   Content(chunks[i..j], bytes));
  }

  lemma ContentOfOne(c: nat, bytes: seq<byte>)
    ensures Content([c], bytes) == ChunkBytes(bytes, c)
  {
    assert [c][..0] == [];
  }

  lemma ContentOfChunk(chunks: seq<nat>, bytes: seq<byte>, k: nat)
    requires k < |chunks|
    ensures Span(k) + CHUNK_SIZE <= |Content(chunks, bytes)|
    ensures ChunkBytes(bytes, chunks[k]) == Content(chunks, bytes)[Span(k)..Span(k) + CHUNK_SIZE]
  {
    hide Content, ChunkBytes;
    ContentSlice(chunks, bytes, k, k + 1);
    assert chunks[k..k + 1] == [chunks[k]];
    ContentOfOne(chunks[k], bytes);
  }

  /** Content depends only on the bytes of the chunks it is read from. */
  lemma {:induction false} ContentFrame(chunks: seq<nat>, bytes: seq<byte>, bytes': seq<byte>)
    requires forall k :: 0 <= k < |chunks| ==> ChunkBytes(bytes', chunks[k]) == ChunkBytes(bytes, chunks[k])
    ensures Content(chunks, bytes') == Content(chunks, bytes)
  {
    if chunks != [] {
      ContentFrame(chunks[..|chunks| - 1], bytes, bytes');
    }
  }
}
