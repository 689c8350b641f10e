/** Thread wait lists of the IPC objects: rt_ipc_list_suspend, and the removals that
    resuming and timing out perform. */
module WaitList {

  import opened Sequences

  type Tid = nat

  datatype Flag = Fifo | Prio

  /** Current priority of a thread; smaller numbers are more urgent. */
  function Pri(prio: map<Tid, int>, t: Tid): int {
    if t in prio then prio[t] else 0
  }

  /** Where a suspended thread enters the list: at the end, or with RT_IPC_FLAG_PRIO in front of
      the first thread that is less urgent (has a larger priority number). */
  function Place(list: seq<Tid>, p: int, flag: Flag, prio: map<Tid, int>): (k: nat)
    ensures k <= |list|
    ensures flag.Prio? ==> (forall i | 0 <= i < k :: Pri(prio, list[i]) <= p) && (k < |list| ==> p < Pri(prio, list[k]))
    ensures flag.Fifo? ==> k == |list|
  {
    if list == [] then 0
    else if flag.Prio? && p < Pri(prio, list[0]) then 0
    else 1 + Place(list[1..], p, flag, prio)
  }

  function Suspend(list: seq<Tid>, t: Tid, flag: Flag, prio: map<Tid, int>): (r: seq<Tid>)
    ensures |r| == |list| + 1
  {
    var k := Place(list, Pri(prio, t), flag, prio);
    list[..k] + [t] + list[k..]
  }

  lemma SuspendMembers(list: seq<Tid>, t: Tid, flag: Flag, prio: map<Tid, int>)
    requires Distinct(list) && t !in list
    ensures Distinct(Suspend(list, t, flag, prio))
    ensures forall x :: x in Suspend(list, t, flag, prio) <==> x in list || x == t
  {
    InsertedOnce(list, t, Place(list, Pri(prio, t), flag, prio));
    hide Place, Pri;
  }

  lemma InsertedOnce(list: seq<Tid>, t: Tid, k: nat)
    requires Distinct(list) && t !in list && k <= |list|
    ensures Distinct(list[..k] + [t] + list[k..])
    ensures forall x :: x in list[..k] + [t] + list[k..] <==> x in list || x == t
  {
    var r := list[..k] + [t] + list[k..];
    assert list == list[..k] + list[k..];
    assert forall i | 0 <= i < |r| :: r[i] == if i < k then list[i] else if i == k then t else list[i - 1];
  }

  /** Most urgent first; threads of equal priority in order of arrival. */
  ghost predicate Ordered(s: seq<Tid>, prio: map<Tid, int>) {
    forall i, j | 0 <= i < j < |s| :: Pri(prio, s[i]) <= Pri(prio, s[j])
  }

  lemma NobodyOrdered(prio: map<Tid, int>)
    ensures Ordered([], prio)
  {
  }

  lemma SuspendAt(list: seq<Tid>, t: Tid, flag: Flag, prio: map<Tid, int>, i: nat)
    requires i <= |list|
    ensures var k := Place(list, Pri(prio, t), flag, prio);
            Suspend(list, t, flag, prio)[i] == if i < k then list[i] else if i == k then t else list[i - 1]
  {
  }

  /** Priority insertion keeps the list ordered. */
  lemma SuspendOrdered(list: seq<Tid>, t: Tid, prio: map<Tid, int>)
    requires Ordered(list, prio)
    ensures Ordered(Suspend(list, t, Prio, prio), prio)
  {
    hide Place, Suspend;
    var k := Place(list, Pri(prio, t), Prio, prio);
    var r := Suspend(list, t, Prio, prio);
    forall i, j | 0 <= i < j < |r| ensures Pri(prio, r[i]) <= Pri(prio, r[j]) {
      SuspendAt(list, t, Prio, prio, i);
      SuspendAt(list, t, Prio, prio, j);
      BehindPlace(list, Pri(prio, t), prio, j - 1);
    }
  }

  lemma BehindPlace(list: seq<Tid>, p: int, prio: map<Tid, int>, j: nat)
    requires Ordered(list, prio)
    ensures Place(list, p, Prio, prio) <= j < |list| ==> p < Pri(prio, list[j])
  {
    var k := Place(list, p, Prio, prio);
    assert k < j < |list| ==> Pri(prio, list[k]) <= Pri(prio, list[j]);
  }

  /** A thread queues up behind all waiting threads of its own priority. */
  lemma SuspendBehindEquals(list: seq<Tid>, t: Tid, prio: map<Tid, int>, i: nat)
    requires Ordered(list, prio) && i < |list| && Pri(prio, list[i]) == Pri(prio, t)
    ensures i < Place(list, Pri(prio, t), Prio, prio)
  {
    BehindPlace(list, Pri(prio, t), prio, i);
  }

  /** Thread t enters the list and nobody else moves: with FIFO behind everybody, with priorities
      behind everybody as urgent and in front of the first that is less urgent. */
  ghost predicate Enters(list: seq<Tid>, list': seq<Tid>, t: Tid, flag: Flag, prio: map<Tid, int>) {
    exists k: nat | k <= |list| :: EntersAt(list, list', k, t) && Stands(list, k, t, flag, prio)
  }

  predicate EntersAt(list: seq<Tid>, list': seq<Tid>, k: nat, t: Tid)
    requires k <= |list|
  {
    list' == list[..k] + [t] + list[k..]
  }

  ghost predicate Stands(list: seq<Tid>, k: nat, t: Tid, flag: Flag, prio: map<Tid, int>)
    requires k <= |list|
  {
    && (flag.Fifo? ==> k == |list|)
    && (flag.Prio? ==> forall i | 0 <= i < k :: Pri(prio, list[i]) <= Pri(prio, t))
    && (flag.Prio? && k < |list| ==> Pri(prio, t) < Pri(prio, list[k]))
  }

  /** That describes exactly one list, the one suspending gives. */
  lemma SuspendEnters(list: seq<Tid>, list': seq<Tid>, t: Tid, flag: Flag, prio: map<Tid, int>)
    ensures Enters(list, list', t, flag, prio) <==> list' == Suspend(list, t, flag, prio)
  {
    hide Pri;
    var n := Place(list, Pri(prio, t), flag, prio);
    assert EntersAt(list, Suspend(list, t, flag, prio), n, t) && Stands(list, n, t, flag, prio);
    if Enters(list, list', t, flag, prio) {
      var k: nat :| k <= |list| && EntersAt(list, list', k, t) && Stands(list, k, t, flag, prio);
      assert k == n by { if flag.Prio? { assert !(k < n) && !(n < k); } }
    }
  }

  /** Thread t leaves the list and nobody else moves. */
  ghost predicate Leaves(list: seq<Tid>, list': seq<Tid>, t: Tid) {
    exists k: nat | k < |list| :: list[k] == t && list' == list[..k] + list[k + 1..]
  }

  lemma WithoutLeaves(list: seq<Tid>, t: Tid)
    requires t in list
    ensures Leaves(list, Without(list, t), t)
  {
    assert list[Find(list, t)] == t;
  }

  lemma WithoutOrdered(s: seq<Tid>, t: Tid, prio: map<Tid, int>)
    requires Ordered(s, prio)
    ensures Ordered(Without(s, t), prio)
  {
    var k, r := Find(s, t), Without(s, t);
    if k < |s| {
      assert forall i | 0 <= i < |r| :: r[i] == s[if i < k then i else i + 1];
    }
  }

  lemma PlaceLast(list: seq<Tid>, p: int, prio: map<Tid, int>)
    ensures Place(list, p, Fifo, prio) == |list|
  {
  }

  lemma FifoSuspend(list: seq<Tid>, t: Tid, prio: map<Tid, int>)
    ensures Suspend(list, t, Fifo, prio) == list + [t]
  {
    PlaceLast(list, Pri(prio, t), prio);
  }

  /** The search from place n on: one step further, or the end of it. */
  lemma PlaceAt(list: seq<Tid>, p: int, prio: map<Tid, int>, n: nat)
    requires n <= |list|
    ensures n < |list| && p >= Pri(prio, list[n]) ==> Place(list[n..], p, Prio, prio) == 1 + Place(list[n + 1..], p, Prio, prio)
    ensures n == |list| || p < Pri(prio, list[n]) ==> Place(list[n..], p, Prio, prio) == 0
  {
    hide Pri;
    if n < |list| {
      assert list[n..][0] == list[n] && list[n..][1..] == list[n + 1..];
    }
  }

  class WaitQueue {
    var list: seq<Tid>

    constructor ()
      ensures list == []
    {
      list := [];
    }

    /** rt_list_insert_after on the list head. */
    method InsertFirst(t: Tid)
      modifies this
      ensures list == [t] + old(list)
    {
      list := [t] + list;
    }

    /** rt_ipc_list_resume. */
    method ResumeFirst() returns (t: Tid)
      requires list != []
      modifies this
      ensures t == old(list)[0] && list == old(list)[1..]
    {
      t := list[0];
      list := list[1..];
    }

    /** rt_thread_resume of the thread at place n. */
    method RemoveAt(n: nat)
      requires n < |list|
      modifies this
      ensures list == old(list)[..n] + old(list)[n + 1..]
    {
      list := list[..n] + list[n + 1..];
    }

    /** rt_ipc_list_resume_all: the threads in the order they are woken. */
    method ResumeAll() returns (woken: seq<Tid>)
      modifies this
      ensures list == [] && woken == old(list)
    {
      woken := [];
      while list != []
        invariant woken + list == old(list)
        decreases |list|
      {
        woken := woken + [list[0]];
        list := list[1..];
      }
    }

    /** Removal of one thread from the list, as its timeout does. */
    method Remove(t: Tid)
      modifies this
      ensures list == Without(old(list), t)
      ensures if t in old(list) then Leaves(old(list), list, t) else list == old(list)
    {
      if t in list { WithoutLeaves(list, t); }
      var k := Find(list, t);
      if k < |list| {
        RemoveAt(k);
      }
    }

    /** rt_ipc_list_suspend. */
    method SuspendThread(t: Tid, flag: Flag, prio: map<Tid, int>)
      modifies this
      ensures list == Suspend(old(list), t, flag, prio)
      ensures Enters(old(list), list, t, flag, prio)
    {
      SuspendEnters(list, Suspend(list, t, flag, prio), t, flag, prio);
      hide Place, Pri, Enters;
      match flag {
        case Fifo =>
          PlaceLast(list, Pri(prio, t), prio);
          list := list + [t];
        case Prio =>
          var n := FindPlace(Pri(prio, t), prio);
          list := list[..n] + [t] + list[n..];
      }
    }

    /** Its search for the first less urgent thread. */
    method FindPlace(p: int, prio: map<Tid, int>) returns (n: nat)
      ensures n == Place(list, p, Prio, prio)
    {
      hide Place, Pri;
      n := 0;
      assert list[0..] == list;
      while n < |list| && p >= Pri(prio, list[n])
        invariant 0 <= n <= |list|
        invariant Place(list, p, Prio, prio) == n + Place(list[n..], p, Prio, prio)
      {
        PlaceAt(list, p, prio, n);
        n := n + 1;
      }
      PlaceAt(list, p, prio, n);
    }
  }
}
