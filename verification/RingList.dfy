/** The circular doubly linked lists under the wait queues: rt_list_init, rt_list_insert_after,
    rt_list_insert_before, rt_list_remove, rt_list_isempty, and priority insertion over them. */
module RingList {
  import opened Sequences
  import opened WaitList

  /** Place k of a ring of n nodes is followed by this one. */
  function Succ(k: nat, n: nat): nat {
    if k + 1 == n then 0 else k + 1
  }

  ghost predicate LinkedAt(next: seq<nat>, prev: seq<nat>, s: seq<nat>, k: nat)
    requires k < |s|
  {
    var j := Succ(k, |s|);
    && s[k] < |next| && s[j] < |prev|
    && next[s[k]] == s[j] && prev[s[j]] == s[k]
  }

  /** The nodes of s, all different, form a ring in this order; s[0] is the list head. */
  ghost predicate Ring(next: seq<nat>, prev: seq<nat>, s: seq<nat>) {
    s != [] && |next| == |prev| && Distinct(s) && forall k: nat | k < |s| :: LinkedAt(next, prev, s, k)
  }

  function Inserted(s: seq<nat>, k: nat, n: nat): (r: seq<nat>)
    requires k <= |s|
    ensures |r| == |s| + 1
    ensures forall j: nat | j < |r| :: r[j] == if j < k then s[j] else if j == k then n else s[j - 1]
  {
    s[..k] + [n] + s[k..]
  }

  function Removed(s: seq<nat>, k: nat): (r: seq<nat>)
    requires k < |s|
    ensures |r| == |s| - 1
    ensures forall j: nat | j < |r| :: r[j] == if j < k then s[j] else s[j + 1]
  {
    s[..k] + s[k + 1..]
  }

  lemma RingInsert(next: seq<nat>, prev: seq<nat>, s: seq<nat>, k: nat, n: nat)
    requires Ring(next, prev, s) && n !in s && n < |next| && 1 <= k <= |s|
    ensures var p, q := s[k - 1], s[if k == |s| then 0 else k];
            p < |next| && q < |next| && next[p] == q && prev[q] == p
            && Ring(next[p := n][n := q], prev[q := n][n := p], Inserted(s, k, n))
  {
    assert LinkedAt(next, prev, s, k - 1);
    var p, q := s[k - 1], s[if k == |s| then 0 else k];
    var a, b, r := next[p := n][n := q], prev[q := n][n := p], Inserted(s, k, n);
    hide Inserted;
    forall j: nat | j < |r| ensures LinkedAt(a, b, r, j) {
      if j < k { assert LinkedAt(next, prev, s, j); }
      if j > k { assert LinkedAt(next, prev, s, j - 1); }
    }
  }

  lemma RingRemove(next: seq<nat>, prev: seq<nat>, s: seq<nat>, k: nat)
    requires Ring(next, prev, s) && 1 <= k < |s|
    ensures var n := s[k];
            n < |next| && next[n] < |next| && prev[n] < |next|
            && Ring(next[prev[n] := next[n]][n := n], prev[next[n] := prev[n]][n := n], Removed(s, k))
  {
    var n := s[k];
    assert LinkedAt(next, prev, s, k) && LinkedAt(next, prev, s, k - 1);
    assert LinkedAt(next, prev, s, Succ(k, |s|));
    var a, b, r := next[prev[n] := next[n]][n := n], prev[next[n] := prev[n]][n := n], Removed(s, k);
    hide Removed;
    forall j: nat | j < |r| ensures LinkedAt(a, b, r, j) {
      if j < k { assert LinkedAt(next, prev, s, j); }
      if j >= k { assert LinkedAt(next, prev, s, j + 1); }
    }
  }

  /** A ring none of whose nodes is stored to stays as it is. */
  lemma OtherRing(next: seq<nat>, prev: seq<nat>, next': seq<nat>, prev': seq<nat>, s: seq<nat>)
    requires Ring(next, prev, s) && |next'| == |next| && |prev'| == |prev|
    requires forall v | v in s && v < |next| :: next'[v] == next[v] && prev'[v] == prev[v]
    ensures Ring(next', prev', s)
  {
    forall k: nat | k < |s| ensures LinkedAt(next', prev', s, k) {
      assert LinkedAt(next, prev, s, k);
    }
  }

  class Lists {
    const next: array<nat>
    const prev: array<nat>

    constructor (n: nat)
      ensures next != prev && next.Length == n == prev.Length && fresh(next) && fresh(prev)
    {
      next := new nat[n](_ => 0);
      prev := new nat[n](_ => 0);
    }

    ghost predicate IsRing(s: seq<nat>)
      reads this, next, prev
    {
      next != prev && Ring(next[..], prev[..], s)
    }

    method Init(l: nat)
      requires next != prev && next.Length == prev.Length && l < next.Length
      modifies next, prev
      ensures IsRing([l])
      ensures forall v | 0 <= v < next.Length && v != l :: next[v] == old(next[v]) && prev[v] == old(prev[v])
    {
      next[l] := l;
      prev[l] := l;
      assert LinkedAt(next[..], prev[..], [l], 0);
    }

    /** n goes behind place k - 1 of the ring. */
    method InsertAfter(l: nat, n: nat, ghost s: seq<nat>, ghost k: nat)
      requires IsRing(s) && n !in s && n < next.Length && 1 <= k <= |s| && l == s[k - 1]
      modifies next, prev
      ensures IsRing(Inserted(s, k, n))
      ensures forall v | 0 <= v < next.Length && v !in s && v != n :: next[v] == old(next[v]) && prev[v] == old(prev[v])
    {
      ghost var a: seq<nat>, b: seq<nat> := next[..], prev[..];
      RingInsert(a, b, s, k, n);
      hide Ring, Inserted;
      var q := next[l];
      prev[q] := n;
      next[n] := q;
      next[l] := n;
      prev[n] := l;
      assert next[..] == a[l := n][n := q] && prev[..] == b[q := n][n := l];
    }

    /** n goes in front of place k of the ring; place |s| is the head again. */
    method InsertBefore(l: nat, n: nat, ghost s: seq<nat>, ghost k: nat)
      requires IsRing(s) && n !in s && n < next.Length && 1 <= k <= |s| && l == s[if k == |s| then 0 else k]
      modifies next, prev
      ensures IsRing(Inserted(s, k, n))
      ensures forall v | 0 <= v < next.Length && v !in s && v != n :: next[v] == old(next[v]) && prev[v] == old(prev[v])
    {
      ghost var a: seq<nat>, b: seq<nat> := next[..], prev[..];
      RingInsert(a, b, s, k, n);
      hide Ring, Inserted;
      var p := prev[l];
      next[p] := n;
      prev[n] := p;
      prev[l] := n;
      next[n] := l;
      assert next[..] == a[p := n][n := l] && prev[..] == b[l := n][n := p];
    }

    /** n leaves its ring and becomes a ring of its own. */
    method Remove(n: nat, ghost s: seq<nat>, ghost k: nat)
      requires IsRing(s) && 1 <= k < |s| && n == s[k]
      modifies next, prev
      ensures IsRing(Removed(s, k)) && IsRing([n])
      ensures forall v | 0 <= v < next.Length && v !in s :: next[v] == old(next[v]) && prev[v] == old(prev[v])
    {
      ghost var a: seq<nat>, b: seq<nat> := next[..], prev[..];
      RingRemove(a, b, s, k);
      InRing(a, b, s, k);
      hide Ring, Removed;
      prev[next[n]] := prev[n];
      next[prev[n]] := next[n];
      prev[n] := n;
      next[n] := n;
      assert next[..] == a[b[n] := a[n]][n := n] && prev[..] == b[a[n] := b[n]][n := n];
      SelfRing(next[..], prev[..], n);
    }

    lemma InRing(a: seq<nat>, b: seq<nat>, s: seq<nat>, k: nat)
      requires Ring(a, b, s) && k < |s|
      ensures s[k] < |a| == |b| && a[s[k]] in s && b[s[k]] in s
      ensures a[s[k]] < |a| && b[s[k]] < |a|
      ensures a[s[k]] == s[k] <==> |s| == 1
    {
      assert LinkedAt(a, b, s, k);
      assert LinkedAt(a, b, s, Succ(k, |s|));
      var j := if k == 0 then |s| - 1 else k - 1;
      assert LinkedAt(a, b, s, j);
    }

    lemma SelfRing(a: seq<nat>, b: seq<nat>, n: nat)
      requires n < |a| == |b| && a[n] == n == b[n]
      ensures Ring(a, b, [n])
    {
      assert LinkedAt(a, b, [n], 0);
    }

    method IsEmpty(l: nat, ghost s: seq<nat>) returns (empty: bool)
      requires IsRing(s) && l == s[0]
      ensures l < next.Length && (empty <==> s == [l])
    {
      InRing(next[..], prev[..], s, 0);
      empty := next[l] == l;
    }

    /** The list work of rt_ipc_list_suspend, thread t being the node of its number: it enters the
        ring behind `head` where Suspend says. */
    method Suspend(head: nat, t: Tid, flag: Flag, prio: map<Tid, int>, ghost list: seq<Tid>)
      requires IsRing([head] + list) && t !in [head] + list && t < next.Length
      modifies next, prev
      ensures IsRing([head] + WaitList.Suspend(list, t, flag, prio))
      ensures forall v | 0 <= v < next.Length && v !in [head] + list && v != t :: next[v] == old(next[v]) && prev[v] == old(prev[v])
    {
      hide Ring, Place;
      var p := Pri(prio, t);
      ghost var s := [head] + list;
      match flag {
        case Fifo =>
          InsertBefore(head, t, s, |s|);
          Behind(head, list, t, Place(list, p, flag, prio)) by { PlaceLast(list, p, prio); }
          PlaceLast(list, p, prio);
        case Prio =>
          var n, k := FindPlace(head, p, prio, list);
          InsertBefore(n, t, s, k + 1);
          Behind(head, list, t, k);
      }
    }

    /** The first node of a less urgent thread, or the list head; it stands in place k + 1. */
    method FindPlace(head: nat, p: int, prio: map<Tid, int>, ghost list: seq<Tid>) returns (n: nat, ghost k: nat)
      requires IsRing([head] + list)
      ensures k == Place(list, p, Prio, prio)
      ensures n == var j := Place(list, p, Prio, prio); if j == |list| then head else list[j]
    {
      hide Ring, Place, Pri;
      ghost var s := [head] + list;
      InRing(next[..], prev[..], s, 0);
      Follows(next[..], prev[..], s, 0);
      n := next[head];
      k := 0;
      assert list[0..] == list;
      while n != head && p >= Pri(prio, n)
        invariant 0 <= k <= |list| && n == if k == |list| then head else list[k]
        invariant Place(list, p, Prio, prio) == k + Place(list[k..], p, Prio, prio)
        decreases |list| - k
      {
        PlaceAt(list, p, prio, k);
        Follows(next[..], prev[..], s, k + 1);
        n := next[n];
        k := k + 1;
      }
      if k < |list| { HeadOutside(next[..], prev[..], s, k); }
      PlaceAt(list, p, prio, k);
    }

    lemma Follows(a: seq<nat>, b: seq<nat>, s: seq<nat>, k: nat)
      requires Ring(a, b, s) && k < |s|
      ensures s[k] < |a| && a[s[k]] == s[Succ(k, |s|)]
    {
      assert LinkedAt(a, b, s, k);
    }

    lemma HeadOutside(a: seq<nat>, b: seq<nat>, s: seq<nat>, k: nat)
      requires Ring(a, b, s) && k + 1 < |s|
      ensures s[k + 1] != s[0]
    {
    }

    lemma Behind(head: nat, list: seq<Tid>, t: Tid, k: nat)
      requires k <= |list|
      ensures Inserted([head] + list, k + 1, t) == [head] + (list[..k] + [t] + list[k..])
    {
    }
  }
}
