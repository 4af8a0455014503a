/** Positions in bytes and in chunks. The functions recurse on the position so that reasoning about them stays linear
    for an unspecified chunk size; SpanIsProduct and SplitIsDivision tie them to the products and quotients in the
    code. */
module ChunkMath {
  import opened Settings

  /** The number of bytes of k chunks: k * CHUNK_SIZE. */
  ghost function Span(k: nat): nat {
    if k == 0 then 0 else Span(k - 1) + CHUNK_SIZE
  }

  /** How many whole chunks n bytes fill: n / CHUNK_SIZE. */
  ghost function FullChunks(n: nat): (q: nat)
    ensures Span(q) <= n < Span(q) + CHUNK_SIZE
  {
    if n < CHUNK_SIZE then 0 else 1 + FullChunks(n - CHUNK_SIZE)
  }

  /** The bytes that are left over: n % CHUNK_SIZE. */
  ghost function Rest(n: nat): (r: nat)
    ensures r < CHUNK_SIZE
  {
    n - Span(FullChunks(n))
  }

  /** How many chunks n bytes need. */
  ghost function ChunksFor(n: nat): nat {
    if Rest(n) == 0 then FullChunks(n) else FullChunks(n) + 1
  }

  lemma {:induction false} SpanIsProduct(k: nat)
    ensures Span(k) == k * CHUNK_SIZE
  {
    if k > 0 { SpanIsProduct(k - 1); }
  }

  lemma {:induction false} SplitIsDivision(n: nat)
    ensures FullChunks(n) == n / CHUNK_SIZE && Rest(n) == n % CHUNK_SIZE
  {
    SpanIsProduct(FullChunks(n));
    Quotient(n, CHUNK_SIZE, FullChunks(n), Rest(n));
  }

  lemma AtLeastOne(a: int, b: int, d: pos)
    requires a < b
    ensures a * d + d <= b * d
  {
    assert (b - a) * d == b * d - a * d;
    assert (b - a - 1) * d >= 0;
    assert (b - a - 1) * d == (b - a) * d - d;
  }

  lemma Quotient(n: nat, d: pos, q: nat, r: nat)
    requires n == q * d + r && r < d
    ensures n / d == q && n % d == r
  {
    var q' := n / d;
    assert n == q' * d + n % d;
    if q < q' { AtLeastOne(q, q', d); }
    if q' < q { AtLeastOne(q', q, d); }
  }

  lemma {:induction false} SpanAdd(a: nat, b: nat)
    ensures Span(a + b) == Span(a) + Span(b)
  {
    if b > 0 { SpanAdd(a, b - 1); }
  }

  lemma SpanOrder(a: nat, b: nat)
    ensures a < b <==> Span(a) < Span(b)
    ensures a < b ==> Span(a) + CHUNK_SIZE <= Span(b)
  {
    if a < b { SpanAdd(a + 1, b - a - 1); } else { SpanAdd(b, a - b); }
  }

  /** ChunksFor rounds up: n chunks hold the data exactly when n is at least ChunksFor. */
  lemma ChunksForIsCeiling(length: nat, n: nat)
    ensures ChunksFor(length) <= n <==> length <= Span(n)
  {
    var q := FullChunks(length);
    SpanOrder(n, q);
    SpanOrder(q, n);
  }

  /** Truncating size chunks by amount bytes drops FullChunks(amount) chunks and Rest(amount) bytes of the next one. */
  lemma TruncateArithmetic(size: nat, amount: nat)
    requires amount <= Span(size)
    ensures FullChunks(amount) <= size
    ensures FullChunks(amount) == size ==> amount == Span(size)
    ensures Span(size) - amount == Span(size - FullChunks(amount)) - Rest(amount)
  {
    SpanOrder(size, FullChunks(amount));
    SpanAdd(size - FullChunks(amount), FullChunks(amount));
  }

  /** n / CHUNK_SIZE and n % CHUNK_SIZE as the code computes them. */
  method Split(n: nat) returns (q: nat, r: nat)
    ensures q == FullChunks(n) && r == Rest(n)
  {
    SplitIsDivision(n);
    q, r := n / CHUNK_SIZE, n % CHUNK_SIZE;
  }

  /** k * CHUNK_SIZE as the code computes it. */
  method Product(k: nat) returns (p: nat)
    ensures p == Span(k)
  {
    SpanIsProduct(k);
    p := k * CHUNK_SIZE;
  }
}
