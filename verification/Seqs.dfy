/** Laws of sequences, stated on their own so that proofs can use them by name. */
module Seqs {

  lemma Uncons<T>(s: seq<T>)
    requires s != []
    ensures s == [s[0]] + s[1..]
  {
  }

  lemma UnconsAt<T>(s: seq<T>, i: nat)
    requires i < |s|
    ensures s[i..] == [s[i]] + s[i + 1..] && s[i..][0] == s[i] && s[i..][1..] == s[i + 1..]
  {
  }

  lemma HeadTail<T>(s: seq<T>, t: seq<T>)
    requires s != []
    ensures [s[0]] + (s[1..] + t) == s + t
  {
  }

  lemma Assoc<T>(s: seq<T>, t: seq<T>, u: seq<T>)
    ensures s + (t + u) == s + t + u
  {
  }

  lemma TakeSnoc<T>(s: seq<T>, i: nat)
    requires i < |s|
    ensures s[..i + 1] == s[..i] + [s[i]]
  {
  }

  lemma TakeDrop<T>(s: seq<T>, i: nat)
    requires i <= |s|
    ensures s == s[..i] + s[i..]
  {
  }

  /** `s` without the elements i..j. */
  function Cut<T>(s: seq<T>, i: nat, j: nat): (r: seq<T>)
    requires i <= j <= |s|
    ensures |r| == |s| - (j - i)
  {
    s[..i] + s[j..]
  }

  lemma CutNothing<T>(s: seq<T>, i: nat)
    requires i <= |s|
    ensures Cut(s, i, i) == s
  {
  }

  /** Deleting one element right behind a cut moves the cut by one. */
  lemma CutOneMore<T>(s: seq<T>, i: nat, j: nat)
    requires i <= j < |s|
    ensures Cut(s, i, j)[i] == s[j] && Cut(Cut(s, i, j), i, i + 1) == Cut(s, i, j + 1)
  {
  }

  /** Where the element at `k` was before the one at `j` was deleted. */
  function Skip(j: nat, k: nat): nat {
    if k < j then k else k + 1
  }

  lemma CutAt<T>(s: seq<T>, j: nat)
    requires j < |s|
    ensures var t := Cut(s, j, j + 1); forall k :: 0 <= k < |t| ==> t[k] == s[Skip(j, k)]
  {
  }

  lemma SliceOfTake<T>(s: seq<T>, n: nat, i: nat, j: nat)
    requires i <= j <= n <= |s|
    ensures s[i..j] == s[..n][i..j]
  {
  }
}
