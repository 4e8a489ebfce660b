/** Messages under way in a channel that keeps their order, but in which any of them may be lost or duplicated. */
module Channels {

  function Twice<T>(s: seq<T>, at: nat): seq<T>
    requires at < |s|
  {
    s[..at + 1] + s[at..]
  }

  function Without<T>(s: seq<T>, at: nat): seq<T>
    requires at < |s|
  {
    s[..at] + s[at + 1..]
  }

  ghost predicate NoneAre<T>(s: seq<T>, x: T) {
    forall i :: 0 <= i < |s| ==> s[i] != x
  }

  /** to is from with elements left out or repeated in place; f says where each comes from. */
  ghost predicate Drawn<T>(from: seq<T>, to: seq<T>, f: seq<nat>) {
    && |f| == |to|
    && (forall i :: 0 <= i < |to| ==> f[i] < |from| && to[i] == from[f[i]])
    && (forall i, j :: 0 <= i < j < |to| ==> f[i] <= f[j])
  }

  lemma DrawnWithout<T>(s: seq<T>, at: nat) returns (f: seq<nat>)
    requires at < |s|
    ensures Drawn(s, Without(s, at), f)
  {
    f := seq(|s| - 1, i requires 0 <= i < |s| - 1 => if i < at then i else i + 1);
  }

  lemma DrawnTwice<T>(s: seq<T>, at: nat) returns (f: seq<nat>)
    requires at < |s|
    ensures Drawn(s, Twice(s, at), f)
  {
    f := seq(|s| + 1, i requires 0 <= i < |s| + 1 => if i <= at then i else i - 1);
  }

  lemma DrawnTail<T>(s: seq<T>) returns (f: seq<nat>)
    requires s != []
    ensures Drawn(s, s[1..], f)
  {
    f := seq(|s| - 1, i requires 0 <= i < |s| - 1 => i + 1);
  }

  lemma DrawnFromNothing<T>(from: seq<T>, to: seq<T>, f: seq<nat>)
    requires Drawn(from, to, f)
    ensures from == [] ==> to == []
  {
    if |to| > 0 {
      assert f[0] < |from|;
    }
  }

  lemma Identity<T>(s: seq<T>) returns (f: seq<nat>)
    ensures Drawn(s, s, f) && forall i :: 0 <= i < |s| ==> f[i] == i
  {
    f := seq(|s|, i requires 0 <= i < |s| => i);
  }
}
