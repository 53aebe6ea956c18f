/** Sequences without repetition, and removing an element. */
module Sequences {
  ghost predicate NoDup(s: seq<nat>) {
    forall i, j :: 0 <= i < j < |s| ==> s[i] != s[j]
  }

  lemma NoDupCons(x: nat, s: seq<nat>)
    requires NoDup(s) && x !in s
    ensures NoDup([x] + s)
  {
    var t := [x] + s;
    assert forall i :: 0 < i < |t| ==> t[i] == s[i - 1] && t[i] in s;
  }

  function Without(s: seq<nat>, p: nat): (r: seq<nat>) {
    if s == [] then [] else if s[0] == p then s[1..] else [s[0]] + Without(s[1..], p)
  }

  lemma {:induction false} WithoutMeans(s: seq<nat>, p: nat)
    requires NoDup(s)
    ensures NoDup(Without(s, p)) && p !in Without(s, p)
    ensures forall x :: x in Without(s, p) <==> x in s && x != p
    ensures |Without(s, p)| == |s| - (if p in s then 1 else 0)
  {
    if s == [] {
    } else if s[0] == p {
    } else {
      assert forall i :: 0 <= i < |s| - 1 ==> s[1..][i] == s[i + 1];
      WithoutMeans(s[1..], p);
      assert s[0] !in s[1..];
      var r := Without(s[1..], p);
      assert forall i :: 0 < i < |[s[0]] + r| ==> ([s[0]] + r)[i] == r[i - 1];
    }
  }

  lemma {:induction false} WithoutLast(s: seq<nat>)
    requires |s| > 0 && NoDup(s)
    ensures Without(s, s[|s| - 1]) == s[..|s| - 1]
  {
    if |s| > 1 {
      assert s[0] != s[|s| - 1];
      var t := s[1..];
      assert forall i :: 0 <= i < |t| ==> t[i] == s[i + 1];
      WithoutLast(t);
      assert t[|t| - 1] == s[|s| - 1];
      assert [s[0]] + t[..|t| - 1] == s[..|s| - 1];
    }
  }

  lemma {:induction false} WithoutAt(s: seq<nat>, i: nat)
    requires NoDup(s) && i < |s|
    ensures Without(s, s[i]) == s[..i] + s[i + 1..]
    decreases |s|
  {
    if i > 0 {
      assert s[0] != s[i];
      var t := s[1..];
      assert forall j :: 0 <= j < |t| ==> t[j] == s[j + 1];
      WithoutAt(t, i - 1);
      assert [s[0]] + (t[..i - 1] + t[i..]) == s[..i] + s[i + 1..];
    }
  }
}
