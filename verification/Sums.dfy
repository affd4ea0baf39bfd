/** Sums of natural weights over a sequence. */
module Sums {
  function Sum<T>(s: seq<T>, weight: T -> nat): nat
    decreases |s|
  {
    if |s| == 0 then 0 else Sum(s[..|s| - 1], weight) + weight(s[|s| - 1])
  }

  lemma SumAppend<T>(s: seq<T>, x: T, weight: T -> nat)
    ensures Sum(s + [x], weight) == Sum(s, weight) + weight(x)
  {
    assert (s + [x])[..|s|] == s;
  }

  lemma {:induction false} SumUpdate<T>(s: seq<T>, i: nat, x: T, weight: T -> nat)
    requires i < |s|
    ensures Sum(s[i := x], weight) + weight(s[i]) == Sum(s, weight) + weight(x)
    decreases |s|
  {
    var n := |s| - 1;
    if i == n {
      assert s[i := x][..n] == s[..n];
    } else {
      assert s[i := x][..n] == s[..n][i := x];
      SumUpdate(s[..n], i, x, weight);
    }
  }

  lemma {:induction false} SumAtLeast<T>(s: seq<T>, i: nat, weight: T -> nat)
    requires i < |s|
    ensures weight(s[i]) <= Sum(s, weight)
    decreases |s|
  {
    if i < |s| - 1 {
      SumAtLeast(s[..|s| - 1], i, weight);
    }
  }

  lemma {:induction false} SumZero<T>(s: seq<T>, weight: T -> nat)
    requires forall i | 0 <= i < |s| :: weight(s[i]) == 0
    ensures Sum(s, weight) == 0
    decreases |s|
  {
    if |s| > 0 {
      SumZero(s[..|s| - 1], weight);
    }
  }

  lemma {:induction false} SumSplit<T>(s: seq<T>, whole: T -> nat, left: T -> nat, right: T -> nat)
    requires forall i | 0 <= i < |s| :: whole(s[i]) == left(s[i]) + right(s[i])
    ensures Sum(s, whole) == Sum(s, left) + Sum(s, right)
    decreases |s|
  {
    if |s| > 0 {
      SumSplit(s[..|s| - 1], whole, left, right);
    }
  }
}
