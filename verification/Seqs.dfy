/** Facts about sequences that the solver finds only with difficulty inside larger proofs. */
module Seqs {

  lemma ConcatAssociates<T>(x: seq<T>, y: seq<T>, z: seq<T>)
    ensures (x + y) + z == x + (y + z)
  {
  }

  lemma InConcat<T>(x: seq<T>, y: seq<T>, v: T)
    ensures v in x + y <==> v in x || v in y
  {
  }

  lemma NothingToConcat<T>(x: seq<T>)
    ensures x + [] == x
  {
  }

  /** Cutting n elements off x + y, when y has them, is cutting them off y. */
  lemma CutConcat<T>(x: seq<T>, y: seq<T>, n: nat)
    requires n <= |y|
    ensures (x + y)[..|x + y| - n] == x + y[..|y| - n]
  {
  }

  lemma PrefixOfConcat<T>(x: seq<T>, y: seq<T>, n: nat)
    requires n <= |x|
    ensures (x + y)[..n] == x[..n]
  {
  }

  /** Replacing the last n elements of the last piece of x + y is replacing the last n elements of x + y. */
  lemma ReplaceEnd<T>(x: seq<T>, y: seq<T>, n: nat, fill: seq<T>)
    requires n <= |y|
    ensures x + (y[..|y| - n] + fill) == (x + y)[..|x + y| - n] + fill
  {
    CutConcat(x, y, n);
    ConcatAssociates(x, y[..|y| - n], fill);
  }

  lemma MiddleOfPrefix<T>(all: seq<T>, upTo: seq<T>, before: seq<T>, middle: seq<T>)
    requires upTo <= all && upTo == before + middle
    ensures middle == all[|before|..|upTo|]
  {
  }

  lemma PrefixInMiddle<T>(x: seq<T>, y: seq<T>, z: seq<T>, p: seq<T>)
    requires p <= y
    ensures |x| + |p| <= |x + (y + z)| && (x + (y + z))[|x|..|x| + |p|] == p
  {
  }

  lemma PrefixWithoutFirst<T>(x: seq<T>, n: nat)
    requires 0 < n <= |x|
    ensures x[..n] == [x[0]] + (x[..0] + x[1..n])
  {
  }

  lemma PrefixWithoutLast<T>(x: seq<T>, k: nat)
    requires k < |x|
    ensures x[..k + 1] == x[..k] + [x[k]] && x[..k] + x[k + 1..k + 1] == x[..k] == x[..k + 1][..k]
  {
  }

  lemma PrefixOfPrefix<T>(x: seq<T>, y: seq<T>, z: seq<T>)
    requires x <= y <= z
    ensures x <= z
  {
  }

  lemma SplitAt<T>(x: seq<T>, i: nat, j: nat)
    requires i <= j <= |x|
    ensures x[..i] <= x[..j] <= x && x[..j] == x[..i] + x[i..j]
  {
  }

  lemma TakeTwice<T>(x: seq<T>, m: nat, n: nat)
    requires n <= m <= |x|
    ensures x[..m][..n] == x[..n]
  {
  }

  lemma PrefixSplits<T>(x: seq<T>, all: seq<T>)
    requires x <= all
    ensures all == x + all[|x|..]
  {
  }

  lemma WithoutOne<T>(x: seq<T>, y: seq<T>, k: nat, n: nat)
    requires k < n <= |x| == |y| && forall j :: 0 <= j < n - 1 ==> y[j] == x[if j < k then j else j + 1]
    ensures y[..n - 1] == x[..k] + x[k + 1..n]
  {
  }

  lemma UpdatedBehind<T>(x: seq<T>, n: nat, v: T)
    requires n < |x|
    ensures x[n := v][..n] == x[..n] && x[n := v][n..n + 1] == [v]
  {
  }
}
