/** Sequences of distinct numbers: free lists, node chains and thread lists. */
module Sequences {

  function Find(s: seq<nat>, x: nat): (k: nat)
    ensures k <= |s|
    ensures k < |s| ==> s[k] == x
    ensures k == |s| <==> x !in s
  {
    if s == [] then 0 else if s[0] == x then 0 else 1 + Find(s[1..], x)
  }

  function Without(s: seq<nat>, x: nat): seq<nat> {
    var k := Find(s, x);
    if k < |s| then s[..k] + s[k + 1..] else s
  }

  ghost predicate Distinct(s: seq<nat>) {
    forall i, j | 0 <= i < j < |s| :: s[i] != s[j]
  }

  lemma WithoutMembers(s: seq<nat>, x: nat)
    requires Distinct(s)
    ensures Distinct(Without(s, x))
    ensures forall y: nat :: y in Without(s, x) <==> y in s && y != x
  {
    var k, r := Find(s, x), Without(s, x);
    if k < |s| {
      assert forall j | 0 <= j < |r| :: r[j] == s[if j < k then j else j + 1];
      forall y: nat | y in s && y != x ensures y in r {
        var j :| 0 <= j < |s| && s[j] == y;
        assert r[if j < k then j else j - 1] == y;
      }
    }
  }
}
