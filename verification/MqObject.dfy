/** The message queue object of the kernel, one method per critical section or copied byte.  Each
    method takes the object from one state of MqProtocol to the next. */
module MqObject {
  import opened Numbers
  import opened MqLists
  import opened Sequences
  import opened WaitList
  import M = MqProtocol
  import N = MessageQueue

  /** A sender's node is already the end of a chain when it is linked. */
  ghost predicate NullNodes(next: seq<int>, pc: map<Tid, M.Pc>) {
    forall t | t in pc && pc[t].CopyIn? && !pc[t].urgent :: pc[t].node < |next| && next[pc[t].node] == N.NULL
  }

  ghost predicate SameNodes(pc: map<Tid, M.Pc>, pc': map<Tid, M.Pc>, t: Tid) {
    forall u | u in pc' && u != t && pc'[u].CopyIn? :: u in pc && pc[u].CopyIn? && pc[u].node == pc'[u].node && pc[u].urgent == pc'[u].urgent
  }

  /** Links of the nodes that threads hold do not change under them. */
  lemma NullKept(l: Lists, next: seq<int>, next': seq<int>, pc: map<Tid, M.Pc>, pc': map<Tid, M.Pc>, n: nat, t: Tid)
    requires M.Partition(l, pc, n) && |next| == |next'| == n && NullNodes(next, pc)
    requires forall x: nat | x < n && x !in l.free && x !in l.queue && (t in pc ==> M.Held(pc[t]) != x) :: next'[x] == next[x]
    requires SameNodes(pc, pc', t) && (t in pc' ==> !pc'[t].CopyIn? || pc'[t].urgent)
    ensures NullNodes(next', pc')
  {
    forall u | u in pc' && pc'[u].CopyIn? && !pc'[u].urgent ensures pc'[u].node < |next'| && next'[pc'[u].node] == N.NULL {
      assert M.Held(pc[u]) == pc[u].node;
    }
  }

  lemma HeldInFlight(s: M.Mq, t: Tid)
    requires M.Partition(s.lists, s.pc, s.maxMsgs) && t in s.pc && M.Held(s.pc[t]) >= 0
    ensures M.Held(s.pc[t]) < s.maxMsgs && M.Held(s.pc[t]) !in s.lists.free && M.Held(s.pc[t]) !in s.lists.queue
  {
  }

  lemma OwnNull(s: M.Mq, next: seq<int>, t: Tid)
    requires NullNodes(next, s.pc) && t in s.pc
    ensures s.pc[t].CopyIn? && !s.pc[t].urgent ==> s.pc[t].node < |next| && next[s.pc[t].node] == N.NULL
  {
  }

  /** Linking, freeing and waking leave the other threads' nodes with them. */
  lemma OthersKeepNodes(s: M.Mq, t: Tid)
    ensures M.Can(s, M.Link(t)) ==> SameNodes(s.pc, M.Next(s, M.Link(t)).pc, t) && M.Next(s, M.Link(t)).pc[t].Idle?
    ensures M.Can(s, M.Finish(t)) ==> SameNodes(s.pc, M.Next(s, M.Finish(t)).pc, t) && M.Next(s, M.Finish(t)).pc[t].Idle?
  {
  }

  class KernelQueue {
    const msgSize: nat
    const flag: Flag
    const nodes: N.MessageNodes
    const body: array<M.Message>
    const receivers: WaitQueue
    const senders: WaitQueue

    ghost predicate Matches(s: M.Mq)
      reads nodes, nodes.next, body, receivers, senders
    {
      && nodes.Valid() && receivers != senders
      && nodes.lists == s.lists && nodes.maxMsgs == s.maxMsgs && flag == s.flag && msgSize == s.msgSize
      && receivers.list == s.recvWait && senders.list == s.sendWait && body[..] == s.body
      && NullNodes(nodes.next[..], s.pc)
    }

    /** rt_mq_init. */
    constructor (msgSize: nat, maxMsgs: nat, flag: Flag)
      ensures forall prio, threads :: Matches(M.Init(msgSize, maxMsgs, flag, prio, threads))
      ensures fresh(nodes) && fresh(nodes.next) && fresh(body) && fresh(receivers) && fresh(senders)
    {
      this.msgSize := msgSize;
      this.flag := flag;
      nodes := new N.MessageNodes(maxMsgs);
      body := new M.Message[maxMsgs](_ => seq(msgSize, j => 0 as Byte));
      receivers := new WaitQueue();
      senders := new WaitQueue();
    }

    /** One pass of the loop of rt_mq_send_wait; `node` is NULL when the queue is full. */
    method SendPass(t: Tid, buf: M.Message, wait: bool, prio: map<Tid, int>, ghost s: M.Mq) returns (node: int, slept: bool)
      requires Matches(s) && prio == s.prio && M.Partition(s.lists, s.pc, s.maxMsgs)
      requires t in s.pc && M.Held(s.pc[t]) < 0
      modifies nodes, nodes.next, senders
      ensures Matches(M.TrySend(s, t, buf, wait))
      ensures var p := M.TrySend(s, t, buf, wait).pc[t];
              (node >= 0 ==> p == M.CopyIn(node, buf, 0, false)) && (slept <==> p.SendAsleep?)
      ensures node >= 0 <==> old(nodes.lists.free) != []
      ensures slept <==> old(nodes.lists.free) == [] && wait
      ensures if slept then Enters(old(senders.list), senders.list, t, flag, prio) else senders.list == old(senders.list)
    {
      hide M.Partition, Suspend, Enters;
      node := nodes.TakeFree();
      slept := false;
      if node == N.NULL {
        if wait {
          senders.SuspendThread(t, flag, prio);
          slept := true;
        }
        return;
      }
      nodes.ClearNext(node);
    }

    /** The size check of rt_mq_send_wait and its first pass. */
    method Send(t: Tid, buf: M.Message, wait: bool, prio: map<Tid, int>, ghost s: M.Mq) returns (error: bool, node: int, slept: bool)
      requires Matches(s) && prio == s.prio && M.Partition(s.lists, s.pc, s.maxMsgs)
      requires M.Can(s, M.SendCall(t, buf, wait))
      modifies nodes, nodes.next, senders
      ensures Matches(M.Next(s, M.SendCall(t, buf, wait)))
      ensures error <==> |buf| > msgSize
      ensures node >= 0 <==> |buf| <= msgSize && old(nodes.lists.free) != []
      ensures slept <==> |buf| <= msgSize && old(nodes.lists.free) == [] && wait
      ensures if slept then Enters(old(senders.list), senders.list, t, flag, prio) else senders.list == old(senders.list)
    {
      hide M.Partition, Enters;
      if |buf| > msgSize {
        return true, N.NULL, false;
      }
      node, slept := SendPass(t, buf, wait, prio, s);
      error := false;
    }

    /** rt_mq_urgent up to the copy. */
    method Urgent(t: Tid, buf: M.Message, ghost s: M.Mq) returns (error: bool, node: int)
      requires Matches(s) && M.Can(s, M.UrgentCall(t, buf)) && M.Partition(s.lists, s.pc, s.maxMsgs)
      modifies nodes
      ensures Matches(M.Next(s, M.UrgentCall(t, buf)))
      ensures error <==> |buf| > msgSize || old(nodes.lists.free) == []
      ensures error <==> node == N.NULL
      ensures !error ==> node == old(nodes.lists.free)[0] && nodes.lists.free == old(nodes.lists.free)[1..]
    {
      if |buf| > msgSize {
        return true, N.NULL;
      }
      node := nodes.TakeFree();
      error := node == N.NULL;
    }

    method CopyByteIn(t: Tid, node: nat, buf: M.Message, done: nat, ghost s: M.Mq)
      requires Matches(s) && M.Can(s, M.CopyByteIn(t))
      requires s.pc[t].node == node && s.pc[t].buf == buf && s.pc[t].done == done
      modifies body
      ensures Matches(M.Next(s, M.CopyByteIn(t)))
    {
      body[node] := body[node][done := buf[done]];
    }

    /** The second critical section of a send: link the node and resume a receiver. */
    method Link(t: Tid, node: nat, urgent: bool, ghost s: M.Mq) returns (woken: seq<Tid>)
      requires Matches(s) && M.Can(s, M.Link(t)) && M.Partition(s.lists, s.pc, s.maxMsgs)
      requires s.pc[t].node == node && s.pc[t].urgent == urgent
      modifies nodes, nodes.next, receivers
      ensures Matches(M.Next(s, M.Link(t)))
      ensures nodes.lists.queue == if urgent then [node] + old(nodes.lists.queue) else old(nodes.lists.queue) + [node]
      ensures |woken| <= 1 && woken + receivers.list == old(receivers.list) && (woken == [] ==> old(receivers.list) == [])
    {
      hide M.Partition, NullNodes, SameNodes;
      HeldInFlight(s, t);
      OwnNull(s, nodes.next[..], t);
      ghost var was := nodes.next[..];
      if urgent {
        nodes.LinkFirst(node);
      } else {
        nodes.LinkLast(node);
      }
      ghost var r := M.Next(s, M.Link(t));
      OthersKeepNodes(s, t);
      NullKept(s.lists, was, nodes.next[..], s.pc, r.pc, s.maxMsgs, t);
      woken := [];
      if receivers.list != [] {
        var w := receivers.ResumeFirst();
        woken := [w];
      }
    }

    /** One pass of the loop of rt_mq_recv. */
    method ReceivePass(t: Tid, size: nat, wait: bool, prio: map<Tid, int>, ghost s: M.Mq) returns (node: int, slept: bool)
      requires Matches(s) && prio == s.prio && t in s.pc
      modifies nodes, receivers
      ensures Matches(M.TryRecv(s, t, size, wait))
      ensures var p := M.TryRecv(s, t, size, wait).pc[t];
              (node >= 0 ==> p.CopyOut? && p.node == node) && (slept <==> p.RecvAsleep?)
      ensures if old(nodes.entry) > 0 then node == old(nodes.lists.queue)[0] && nodes.lists.queue == old(nodes.lists.queue)[1..]
              else node == N.NULL && nodes.lists == old(nodes.lists)
      ensures slept <==> old(nodes.entry) == 0 && wait
      ensures if slept then Enters(old(receivers.list), receivers.list, t, flag, prio) else receivers.list == old(receivers.list)
    {
      hide Suspend, Enters;
      node, slept := N.NULL, false;
      if nodes.entry == 0 {
        if wait {
          receivers.SuspendThread(t, flag, prio);
          slept := true;
        }
        return;
      }
      node := nodes.TakeHead();
    }

    method CopyByteOut(t: Tid, node: nat, done: nat, ghost s: M.Mq) returns (b: Byte)
      requires Matches(s) && M.Can(s, M.CopyByteOut(t)) && s.pc[t].node == node && |s.pc[t].out| == done
      ensures Matches(M.Next(s, M.CopyByteOut(t))) && M.Next(s, M.CopyByteOut(t)).pc[t].out == s.pc[t].out + [b]
    {
      b := body[node][done];
    }

    /** The second critical section of a receive: free the node and resume a sender. */
    method Finish(t: Tid, node: nat, ghost s: M.Mq) returns (woken: seq<Tid>)
      requires Matches(s) && M.Can(s, M.Finish(t)) && M.Partition(s.lists, s.pc, s.maxMsgs) && s.pc[t].node == node
      modifies nodes, nodes.next, senders
      ensures Matches(M.Next(s, M.Finish(t)))
      ensures nodes.lists.free == [node] + old(nodes.lists.free)
      ensures |woken| <= 1 && woken + senders.list == old(senders.list) && (woken == [] ==> old(senders.list) == [])
    {
      hide M.Partition, NullNodes, SameNodes;
      HeldInFlight(s, t);
      OwnNull(s, nodes.next[..], t);
      ghost var was := nodes.next[..];
      nodes.PutFree(node);
      ghost var r := M.Next(s, M.Finish(t));
      OthersKeepNodes(s, t);
      NullKept(s.lists, was, nodes.next[..], s.pc, r.pc, s.maxMsgs, t);
      woken := [];
      if senders.list != [] {
        var w := senders.ResumeFirst();
        woken := [w];
      }
    }

    method Timeout(t: Tid, ghost s: M.Mq)
      requires Matches(s) && M.Can(s, M.Timeout(t))
      modifies receivers, senders
      ensures Matches(M.Next(s, M.Timeout(t)))
    {
      hide Without;
      senders.Remove(t);
      receivers.Remove(t);
    }

    /** RT_IPC_CMD_RESET. */
    method Reset(ghost s: M.Mq) returns (woken: seq<Tid>)
      requires Matches(s) && M.Partition(s.lists, s.pc, s.maxMsgs)
      modifies nodes, nodes.next, receivers, senders
      ensures Matches(M.Next(s, M.Reset))
      ensures nodes.lists.queue == [] && woken == old(receivers.list) + old(senders.list)
    {
      hide Drain;
      M.DrainCount(nodes.lists);
      var r := receivers.ResumeAll();
      var w := senders.ResumeAll();
      woken := r + w;
      ghost var was := nodes.next[..];
      nodes.Reset();
      NobodysNode(s, was, nodes.next[..]);
    }

    lemma NobodysNode(s: M.Mq, next: seq<int>, next': seq<int>)
      requires M.Partition(s.lists, s.pc, s.maxMsgs) && |next| == |next'| == s.maxMsgs && NullNodes(next, s.pc)
      requires forall x: nat | x < s.maxMsgs && x !in s.lists.free && x !in s.lists.queue :: next'[x] == next[x]
      ensures NullNodes(next', M.Next(s, M.Reset).pc)
    {
      hide Drain;
      var pc := M.Next(s, M.Reset).pc;
      forall u | u in pc && pc[u].CopyIn? && !pc[u].urgent ensures pc[u].node < |next'| && next'[pc[u].node] == N.NULL {
        assert M.Held(s.pc[u]) == pc[u].node;
      }
    }
  }
}
