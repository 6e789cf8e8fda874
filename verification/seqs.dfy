/** List comprehensions with a condition, `[x for x in xs if p(x)]`, and the
    order facts they keep. */
module Seqs {

  /** `[x for x in xs if keep(x)]`. */
  function Filter<T>(keep: T -> bool, xs: seq<T>): (kept: seq<T>)
    ensures |kept| <= |xs|
    ensures forall i :: 0 <= i < |kept| ==> keep(kept[i]) && kept[i] in xs
    ensures forall i :: 0 <= i < |xs| && keep(xs[i]) ==> xs[i] in kept
    decreases |xs|
  {
    if |xs| == 0 then []
    else
      var rest := Filter(keep, xs[1..]);
      assert forall i :: 1 <= i < |xs| ==> xs[i] == xs[1..][i - 1];
      if keep(xs[0]) then [xs[0]] + rest else rest
  }

  /** The comprehension distributes over concatenation and keeps or drops
      each single element on its own, so it is determined element by
      element, duplicates included. */
  lemma {:induction false} FilterAppend<T>(keep: T -> bool, xs: seq<T>, ys: seq<T>)
    ensures Filter(keep, xs + ys) == Filter(keep, xs) + Filter(keep, ys)
    ensures |xs| == 1 ==> Filter(keep, xs) == (if keep(xs[0]) then xs else [])
    decreases |xs|
  {
    if |xs| > 0 {
      assert (xs + ys)[1..] == xs[1..] + ys;
      FilterAppend(keep, xs[1..], ys);
    } else {
      assert xs + ys == ys;
    }
  }

  /** `small` can be obtained from `big` by deleting elements, keeping the order. */
  predicate IsSubsequence<T(==)>(small: seq<T>, big: seq<T>)
    decreases |big|
  {
    if |small| == 0 then true
    else if |big| == 0 then false
    else if small[0] == big[0] then IsSubsequence(small[1..], big[1..])
    else IsSubsequence(small, big[1..])
  }

  /** The comprehension keeps the surviving elements in their original order. */
  lemma {:induction false} FilterIsSubsequence<T>(keep: T -> bool, xs: seq<T>)
    ensures IsSubsequence(Filter(keep, xs), xs)
    decreases |xs|
  {
    if |xs| > 0 {
      FilterIsSubsequence(keep, xs[1..]);
      var rest := Filter(keep, xs[1..]);
      if !keep(xs[0]) {
        SubsequenceDropHead(rest, xs);
      } else {
        assert ([xs[0]] + rest)[1..] == rest;
      }
    }
  }

  /** Allowing one more element in front of `big` keeps a subsequence a subsequence. */
  lemma {:induction false} SubsequenceDropHead<T>(small: seq<T>, big: seq<T>)
    requires |big| > 0
    requires IsSubsequence(small, big[1..])
    ensures IsSubsequence(small, big)
    decreases |big|, 0
  {
    if |small| > 0 && small[0] == big[0] {
      SubsequenceTail(small, big[1..]);
    }
  }

  /** Dropping the first element of a subsequence keeps it a subsequence. */
  lemma {:induction false} SubsequenceTail<T>(small: seq<T>, big: seq<T>)
    requires |small| > 0
    requires IsSubsequence(small, big)
    ensures IsSubsequence(small[1..], big)
    decreases |big|, 1
  {
    if small[0] == big[0] {
      SubsequenceDropHead(small[1..], big);
    } else {
      SubsequenceTail(small, big[1..]);
      SubsequenceDropHead(small[1..], big);
    }
  }
}
