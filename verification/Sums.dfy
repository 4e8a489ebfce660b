module Sums {

  function Sum(s: seq<nat>): nat {
    if s == [] then 0 else Sum(s[..|s| - 1]) + s[|s| - 1]
  }

  lemma SumAppend(s: seq<nat>, x: nat)
    ensures Sum(s + [x]) == Sum(s) + x
  {
    assert (s + [x])[..|s|] == s;
  }

  /** A prefix and the element after it stay below every longer prefix. */
  lemma {:induction false} SumPrefix(s: seq<nat>, i: nat, j: nat)
    requires i < j <= |s|
    ensures Sum(s[..i]) + s[i] <= Sum(s[..j])
    decreases j
  {
    assert s[..j][..j - 1] == s[..j - 1];
    if i < j - 1 {
      SumPrefix(s, i, j - 1);
    }
  }

  lemma {:induction false} SumBound(s: seq<nat>, most: nat)
    requires forall i :: 0 <= i < |s| ==> s[i] <= most
    ensures Sum(s) <= most * |s|
    decreases |s|
  {
    if s != [] {
      SumBound(s[..|s| - 1], most);
      assert most * |s| == most * (|s| - 1) + most;
    }
  }
}
