/** The flashcard sampler: an in-place Fisher-Yates shuffle of a copy of the word list, then its first
    nine cards. The random draws are an oracle `js`: at step `i` the loop swaps index `i` with `js[i]`. */
module Shuffle {

  /** How many cards the page shows at once. */
  const MaxCards: nat := 9

  function Min(a: int, b: int): (m: int)
    ensures m <= a && m <= b && (m == a || m == b)
  {
    if a <= b then a else b
  }

  /** A choice oracle for a list of length `n`: each draw `js[i]` lies in `0..i`, as
      `Math.floor(Math.random() * (i + 1))` does. Extra entries beyond `n` are ignored. */
  predicate ValidChoices(js: seq<nat>, n: nat) {
    n <= |js| && forall i :: 0 <= i < n ==> js[i] <= i
  }

  /** `s` with the elements at `i` and `j` exchanged (nothing changes when `i == j`). */
  function Swap<T>(s: seq<T>, i: nat, j: nat): (r: seq<T>)
    requires i < |s| && j < |s|
    ensures |r| == |s|
  {
    s[i := s[j]][j := s[i]]
  }

  /** A swap exchanges the two positions, leaves every other one alone, and keeps the elements. */
  lemma SwapFacts<T>(s: seq<T>, i: nat, j: nat)
    requires i < |s| && j < |s|
    ensures Swap(s, i, j)[i] == s[j] && Swap(s, i, j)[j] == s[i]
    ensures forall k :: 0 <= k < |s| && k != i && k != j ==> Swap(s, i, j)[k] == s[k]
    ensures multiset(Swap(s, i, j)) == multiset(s)
  {
  }

  /** The steps `i, i - 1, ..., 1` of the descending swap loop applied to `s`. */
  function ShuffleFrom<T>(s: seq<T>, js: seq<nat>, i: int): (r: seq<T>)
    requires i < |s| && ValidChoices(js, |s|)
    ensures |r| == |s|
    decreases i
  {
    if i <= 0 then s else ShuffleFrom(Swap(s, i, js[i]), js, i - 1)
  }

  /** The whole shuffle of `s`, starting at its last index. */
  function FisherYates<T>(s: seq<T>, js: seq<nat>): (r: seq<T>)
    requires ValidChoices(js, |s|)
    ensures |r| == |s|
  {
    ShuffleFrom(s, js, |s| - 1)
  }

  /** The shuffle is a permutation of its input, for any draws. */
  lemma {:induction false} ShuffleFromPermutation<T>(s: seq<T>, js: seq<nat>, i: int)
    requires i < |s| && ValidChoices(js, |s|)
    ensures multiset(ShuffleFrom(s, js, i)) == multiset(s)
    decreases i
  {
    if i > 0 {
      SwapFacts(s, i, js[i]);
      ShuffleFromPermutation(Swap(s, i, js[i]), js, i - 1);
    }
  }

  /** The steps from `i` down never touch a position above `i`: once the loop has passed a
      position, that position is final, since each step swaps `i` only with some `j <= i`. */
  lemma {:induction false} ShuffleFromKeepsAbove<T>(s: seq<T>, js: seq<nat>, i: int, k: nat)
    requires i < k < |s| && ValidChoices(js, |s|)
    ensures ShuffleFrom(s, js, i)[k] == s[k]
    decreases i
  {
    if i > 0 {
      SwapFacts(s, i, js[i]);
      ShuffleFromKeepsAbove(Swap(s, i, js[i]), js, i - 1, k);
    }
  }

  /** The loop at Vocab.tsx lines 57-60, in place on `a`. */
  method ShuffleInPlace<T>(a: array<T>, js: seq<nat>)
    requires ValidChoices(js, a.Length)
    modifies a
    ensures a[..] == FisherYates(old(a[..]), js)
    ensures multiset(a[..]) == multiset(old(a[..]))
  {
    ghost var target := FisherYates(a[..], js);
    ShuffleFromPermutation(a[..], js, a.Length - 1);
    var i: int := a.Length - 1;
    while i > 0
      invariant -1 <= i < a.Length
      invariant ShuffleFrom(a[..], js, i) == target
      invariant forall k :: i < k < a.Length && 0 <= k ==> a[k] == target[k]
    {
      var j := js[i];
      ghost var before := a[..];
      var t := a[i];
      a[i] := a[j];
      a[j] := t;
      assert a[..] == Swap(before, i, j);
      assert ShuffleFrom(a[..], js, i - 1) == target;
      ShuffleFromKeepsAbove(a[..], js, i - 1, i);
      i := i - 1;
    }
  }

  /** The cards shown: the first `Min(9, |s|)` elements of the shuffled copy. There are exactly that
      many, every card is an element of `s`, none is shown more often than it occurs in `s`, and
      when `s` has at most nine elements every one of them is shown. */
  function Sample<T>(s: seq<T>, js: seq<nat>): (r: seq<T>)
    requires ValidChoices(js, |s|)
    ensures |r| == Min(MaxCards, |s|)
    ensures multiset(r) <= multiset(s)
    ensures forall x :: x in r ==> x in s
    ensures |s| <= MaxCards ==> multiset(r) == multiset(s)
  {
    var shuffled := FisherYates(s, js);
    var k := Min(MaxCards, |s|);
    ShuffleFromPermutation(s, js, |s| - 1);
    assert shuffled == shuffled[..k] + shuffled[k..];
    assert forall x :: x in shuffled[..k] ==> x in multiset(s);
    shuffled[..k]
  }

  /** No two distinct positions of `s` carry the same key. */
  ghost predicate DistinctBy<T, K>(s: seq<T>, key: T -> K) {
    forall p, q :: 0 <= p < |s| && 0 <= q < |s| && p != q ==> key(s[p]) != key(s[q])
  }

  lemma SwapDistinctBy<T, K>(s: seq<T>, i: nat, j: nat, key: T -> K)
    requires i < |s| && j < |s| && DistinctBy(s, key)
    ensures DistinctBy(Swap(s, i, j), key)
  {
    var r := Swap(s, i, j);
    SwapFacts(s, i, j);
    forall p, q | 0 <= p < |r| && 0 <= q < |r| && p != q ensures key(r[p]) != key(r[q]) {
      var p' := if p == i then j else if p == j then i else p;
      var q' := if q == i then j else if q == j then i else q;
      assert r[p] == s[p'] && r[q] == s[q'];
    }
  }

  lemma {:induction false} ShuffleFromDistinctBy<T, K>(s: seq<T>, js: seq<nat>, i: int, key: T -> K)
    requires i < |s| && ValidChoices(js, |s|) && DistinctBy(s, key)
    ensures DistinctBy(ShuffleFrom(s, js, i), key)
    decreases i
  {
    if i > 0 {
      var t := Swap(s, i, js[i]);
      SwapDistinctBy(s, i, js[i], key);
      ShuffleFromDistinctBy(t, js, i - 1, key);
      assert ShuffleFrom(s, js, i) == ShuffleFrom(t, js, i - 1);
    }
  }

  /** Distinct keys in the list give distinct keys on the cards ("nine distinct words"),
      whatever the random draws. */
  lemma SampleDistinctBy<T, K>(s: seq<T>, js: seq<nat>, key: T -> K)
    requires ValidChoices(js, |s|) && DistinctBy(s, key)
    ensures DistinctBy(Sample(s, js), key)
  {
    ShuffleFromDistinctBy(s, js, |s| - 1, key);
  }
}
