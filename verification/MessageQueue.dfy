/** The abstract node lists of a message queue and the list edits of its critical sections. */
module MqLists {

  /** The two node lists.  Nodes in neither are in flight: one thread holds each of them. */
  datatype Lists = Lists(free: seq<nat>, queue: seq<nat>)

  function TakeFree(l: Lists): Lists
    requires l.free != []
  {
    l.(free := l.free[1..])
  }

  function Append(l: Lists, v: nat): Lists {
    l.(queue := l.queue + [v])
  }

  function Prepend(l: Lists, v: nat): Lists {
    l.(queue := [v] + l.queue)
  }

  function TakeHead(l: Lists): Lists
    requires l.queue != []
  {
    l.(queue := l.queue[1..])
  }

  function PutFree(l: Lists, v: nat): Lists {
    l.(free := [v] + l.free)
  }

  /** RESET moves the queued nodes to the free chain one by one, front first. */
  function Drain(l: Lists): Lists
    decreases |l.queue|
  {
    if l.queue == [] then l else Drain(Lists([l.queue[0]] + l.free, l.queue[1..]))
  }

  /** The free chain after initialisation: built by pushing node 0, then 1, and so on. */
  function CountDown(n: nat): (s: seq<nat>)
    ensures |s| == n
    ensures forall k | 0 <= k < n :: s[k] == n - 1 - k
  {
    if n == 0 then [] else [n - 1] + CountDown(n - 1)
  }

}

/** The message nodes of one message queue: a free chain and the queue proper, both linked
    through the nodes' next fields.  Each method is the list work of one critical section of
    the send, urgent, receive and reset paths. */
module MessageQueue {

  import opened MqLists
  import opened Sequences
  import Spec = MqLists

  const NULL: int := -1

  function First(s: seq<nat>): int {
    if s == [] then NULL else s[0]
  }

  function Last(s: seq<nat>): int {
    if s == [] then NULL else s[|s| - 1]
  }

  /** Node s[k] links to the next one of s, or to NULL at the end. */
  predicate LinkAt(next: seq<int>, s: seq<nat>, k: nat)
    requires k < |s|
  {
    s[k] < |next| && next[s[k]] == if k + 1 < |s| then s[k + 1] else NULL
  }

  /** The nodes of s are distinct and linked in order through `next`, ending in NULL. */
  ghost predicate Chain(next: seq<int>, s: seq<nat>) {
    && Distinct(s)
    && forall k: nat | k < |s| :: LinkAt(next, s, k)
  }

  lemma ChainKept(next: seq<int>, s: seq<nat>, v: nat, x: int)
    requires Chain(next, s) && v !in s && v < |next|
    ensures Chain(next[v := x], s)
  {
    var w := next[v := x];
    forall k: nat | k < |s| ensures LinkAt(w, s, k) {
      assert LinkAt(next, s, k);
    }
  }

  lemma ChainTail(next: seq<int>, s: seq<nat>)
    requires Chain(next, s) && s != []
    ensures Chain(next, s[1..]) && s[0] < |next| && next[s[0]] == First(s[1..]) && s[0] !in s[1..]
  {
    var r := s[1..];
    forall k: nat | k < |r| ensures LinkAt(next, r, k) {
      assert LinkAt(next, s, k + 1);
    }
    assert LinkAt(next, s, 0);
  }

  lemma ChainPush(next: seq<int>, s: seq<nat>, v: nat)
    requires Chain(next, s) && v !in s && v < |next|
    ensures Chain(next[v := First(s)], [v] + s)
  {
    var r, w := [v] + s, next[v := First(s)];
    forall k: nat | k < |r| ensures LinkAt(w, r, k) {
      if k > 0 { assert LinkAt(next, s, k - 1); }
    }
  }

  lemma ChainAppend(next: seq<int>, s: seq<nat>, v: nat)
    requires Chain(next, s) && v !in s && v < |next| && next[v] == NULL
    ensures s == [] ==> Chain(next, [v])
    ensures s != [] ==> s[|s| - 1] < |next| && Chain(next[s[|s| - 1] := v], s + [v])
  {
    if s == [] {
      assert LinkAt(next, [v], 0);
    } else {
      assert LinkAt(next, s, |s| - 1);
      var r, w := s + [v], next[s[|s| - 1] := v];
      forall k: nat | k < |r| ensures LinkAt(w, r, k) {
        if k < |s| { assert LinkAt(next, s, k); }
      }
    }
  }

  class MessageNodes {
    const maxMsgs: nat
    const next: array<int>
    var freeHead: int
    var head: int
    var tail: int
    var entry: nat
    ghost var lists: Lists

    /** The two chains are disjoint and linked; `entry` is the queue length and `tail` its last
        node, NULL exactly when the queue is empty. */
    ghost predicate Valid()
      reads this, next
    {
      && next.Length == maxMsgs
      && Chain(next[..], lists.free) && Chain(next[..], lists.queue)
      && (forall v | v in lists.free :: v !in lists.queue)
      && freeHead == First(lists.free)
      && head == First(lists.queue) && tail == Last(lists.queue)
      && entry == |lists.queue|
    }

    /** v is in flight. */
    ghost predicate InFlight(v: nat)
      reads this
    {
      v < maxMsgs && v !in lists.free && v !in lists.queue
    }

    /** rt_mq_init: every node on the free chain, the last one first. */
    constructor (maxMsgs: nat)
      ensures Valid() && this.maxMsgs == maxMsgs && lists == Lists(CountDown(maxMsgs), []) && fresh(next)
    {
      this.maxMsgs := maxMsgs;
      next := new int[maxMsgs];
      head, tail, freeHead, entry := NULL, NULL, NULL, 0;
      lists := Lists([], []);
      new;
      var temp := 0;
      while temp < maxMsgs
        invariant 0 <= temp <= maxMsgs
        invariant Valid() && lists == Lists(CountDown(temp), [])
        modifies this, next
      {
        PutFree(temp);
        temp := temp + 1;
      }
    }

    /** Head of the free chain, or NULL when the queue is full. */
    method TakeFree() returns (msg: int)
      requires Valid()
      modifies this`freeHead, this`lists
      ensures Valid()
      ensures msg == First(old(lists.free))
      ensures lists == if msg == NULL then old(lists) else Spec.TakeFree(old(lists))
      ensures msg != NULL ==> msg >= 0 && InFlight(msg)
    {
      msg := freeHead;
      if msg != NULL {
        ChainTail(next[..], lists.free);
        freeHead := next[msg];
        lists := Spec.TakeFree(lists);
      }
    }

    /** Outside the lock: the sender makes its node the end of a chain. */
    method ClearNext(v: nat)
      requires Valid() && InFlight(v)
      modifies next
      ensures Valid() && next[v] == NULL
      ensures forall x: nat | x < maxMsgs && x != v :: next[x] == old(next[x])
    {
      ChainKept(next[..], lists.free, v, NULL);
      ChainKept(next[..], lists.queue, v, NULL);
      ghost var was := next[..];
      next[v] := NULL;
      assert next[..] == was[v := NULL];
    }

    /** The linking step of rt_mq_send_wait. */
    method LinkLast(v: nat)
      requires Valid() && InFlight(v) && next[v] == NULL
      modifies this, next
      ensures Valid() && lists == Append(old(lists), v)
      ensures forall x: nat | x != v && old(InFlight(x)) :: next[x] == old(next[x])
    {
      ghost var was := next[..];
      ChainAppend(was, lists.queue, v);
      if tail != NULL {
        ChainKept(was, lists.free, tail, v);
        next[tail] := v;
        assert next[..] == was[tail := v];
      }
      tail := v;
      if head == NULL {
        head := v;
      }
      entry := entry + 1;
      lists := Append(lists, v);
    }

    /** The linking step of rt_mq_urgent. */
    method LinkFirst(v: nat)
      requires Valid() && InFlight(v)
      modifies this, next
      ensures Valid() && lists == Prepend(old(lists), v)
      ensures forall x: nat | x != v && old(InFlight(x)) :: next[x] == old(next[x])
    {
      ghost var was := next[..];
      ChainPush(was, lists.queue, v);
      ChainKept(was, lists.free, v, head);
      next[v] := head;
      assert next[..] == was[v := head];
      head := v;
      if tail == NULL {
        tail := v;
      }
      entry := entry + 1;
      lists := Prepend(lists, v);
    }

    /** The unlinking step of rt_mq_recv. */
    method TakeHead() returns (msg: nat)
      requires Valid() && entry > 0
      modifies this
      ensures Valid() && lists == Spec.TakeHead(old(lists))
      ensures msg == old(lists.queue)[0] && InFlight(msg)
    {
      ChainTail(next[..], lists.queue);
      msg := head;
      head := next[msg];
      if tail == msg {
        assert |lists.queue| == 1;
        tail := NULL;
      }
      entry := entry - 1;
      lists := Spec.TakeHead(lists);
    }

    /** A node goes back to the free chain. */
    method PutFree(v: nat)
      requires Valid() && InFlight(v)
      modifies this`freeHead, this`lists, next
      ensures Valid() && lists == Spec.PutFree(old(lists), v)
      ensures forall x: nat | x != v && old(InFlight(x)) :: next[x] == old(next[x])
    {
      ghost var was := next[..];
      ChainPush(was, lists.free, v);
      ChainKept(was, lists.queue, v, freeHead);
      next[v] := freeHead;
      assert next[..] == was[v := freeHead];
      freeHead := v;
      lists := Spec.PutFree(lists, v);
    }

    /** The loop of RT_IPC_CMD_RESET. */
    method Reset()
      requires Valid()
      modifies this, next
      ensures Valid() && lists == Drain(old(lists))
      ensures forall x: nat | old(InFlight(x)) :: next[x] == old(next[x])
    {
      while head != NULL
        invariant Valid() && Drain(lists) == Drain(old(lists))
        invariant forall x: nat | old(InFlight(x)) :: InFlight(x) && next[x] == old(next[x])
        decreases |lists.queue|
      {
        var msg := TakeHead();
        PutFree(msg);
      }
      entry := 0;
    }
  }
}
