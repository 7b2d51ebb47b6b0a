/** Facts about slices and concatenation that the proofs about buffers share. */
module Sequences {

  lemma Regroup<T>(x: seq<T>, a: seq<T>, b: seq<T>)
    ensures x + a + b == x + (a + b)
  {
  }

  lemma DropFront<T>(x: seq<T>, a: seq<T>)
    ensures (x + a)[|x|..] == a
  {
  }

  lemma SplitSlice<T>(b: seq<T>, i: nat, j: nat, k: nat)
    requires i <= j <= k <= |b|
    ensures b[i..k] == b[i..j] + b[j..k]
    ensures b[i..k][..j - i] == b[i..j] && b[i..k][j - i..] == b[j..k]
  {
  }

  /** Moving the cut between two adjacent slices by m. */
  lemma MoveCut<T>(b: seq<T>, i: nat, j: nat, k: nat, m: int)
    requires i <= j <= k <= |b| && i <= j + m <= k
    ensures m >= 0 ==> b[i..j + m] == b[i..j] + b[j..k][..m] && b[j + m..k] == b[j..k][m..]
    ensures m < 0 ==> b[i..j + m] == b[i..j][..|b[i..j]| + m] && b[j + m..k] == b[i..j][|b[i..j]| + m..] + b[j..k]
  {
  }

  lemma TakeTo<T>(b: seq<T>, i: nat, j: nat)
    requires i <= j <= |b|
    ensures b[..j] == b[..i] + b[i..j]
  {
  }

  lemma SliceHead<T>(b: seq<T>, i: nat, j: nat)
    requires i < j <= |b|
    ensures b[i..j] == [b[i]] + b[i + 1..j] && b[..i + 1] == b[..i] + [b[i]]
  {
  }

  lemma TakeAllButLast<T>(b: seq<T>, i: nat)
    requires 0 < i <= |b|
    ensures b[..i][..i - 1] == b[..i - 1] && b[..i][i - 1] == b[i - 1]
  {
  }

  lemma TakeDrop<T>(b: seq<T>, i: nat, j: nat)
    requires i <= j <= |b|
    ensures b[..j][i..] == b[i..j]
  {
  }

  /** Sequences that agree from k on have the same slices there. */
  lemma SameTail<T>(b: seq<T>, c: seq<T>, k: nat, i: nat, j: nat)
    requires k <= i <= j <= |b| == |c| && b[k..] == c[k..]
    ensures b[i..j] == c[i..j]
  {
    forall x | i <= x < j
      ensures b[x] == c[x]
    {
      assert b[x] == b[k..][x - k];
    }
  }
}
