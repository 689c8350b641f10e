/** The message queue as a concurrent protocol.  Each stretch between disabling and enabling
    interrupts is one atomic step, and so is each byte of the two copies that run with
    interrupts enabled; steps of different threads interleave freely. */
module MqProtocol {
  import opened Numbers
  import opened MqLists
  import opened Sequences
  import opened WaitList

  type Message = seq<Byte>

  /** What a thread is doing with this queue. */
  datatype Pc =
    | Idle
    | SendAsleep(buf: Message)
    | SendWoken(buf: Message)
    | CopyIn(node: nat, buf: Message, done: nat, urgent: bool)
    | RecvAsleep(size: nat)
    | RecvWoken(size: nat)
    | CopyOut(node: nat, size: nat, out: Message)

  datatype Mq = Mq(
    msgSize: nat, maxMsgs: nat, flag: Flag, prio: map<Tid, int>,
    lists: Lists, body: seq<Message>,
    recvWait: seq<Tid>, sendWait: seq<Tid>,
    pc: map<Tid, Pc>)

  /** `wait` says whether the caller gave a non-zero timeout.  Any sleeper may time out. */
  datatype Event =
    | SendCall(t: Tid, buf: Message, wait: bool)
    | SendAgain(t: Tid, wait: bool)
    | UrgentCall(t: Tid, buf: Message)
    | CopyByteIn(t: Tid)
    | Link(t: Tid)
    | RecvCall(t: Tid, size: nat, wait: bool)
    | RecvAgain(t: Tid, wait: bool)
    | CopyByteOut(t: Tid)
    | Finish(t: Tid)
    | Timeout(t: Tid)
    | Reset

  function Init(msgSize: nat, maxMsgs: nat, flag: Flag, prio: map<Tid, int>, threads: set<Tid>): Mq {
    Mq(msgSize, maxMsgs, flag, prio, Lists(CountDown(maxMsgs), []),
       seq(maxMsgs, i => seq(msgSize, j => 0 as Byte)), [], [], map t | t in threads :: Idle)
  }

  // ------------------------------------------------------------------ steps

  predicate Can(s: Mq, e: Event) {
    match e
    case SendCall(t, buf, _) => t in s.pc && s.pc[t].Idle? && buf != []
    case SendAgain(t, _) => t in s.pc && s.pc[t].SendWoken?
    case UrgentCall(t, buf) => t in s.pc && s.pc[t].Idle? && buf != []
    case CopyByteIn(t) => t in s.pc && s.pc[t].CopyIn? && s.pc[t].done < |s.pc[t].buf| && CopyInFits(s, s.pc[t])
    case Link(t) => t in s.pc && s.pc[t].CopyIn? && s.pc[t].done == |s.pc[t].buf|
    case RecvCall(t, size, _) => t in s.pc && s.pc[t].Idle? && size > 0
    case RecvAgain(t, _) => t in s.pc && s.pc[t].RecvWoken?
    case CopyByteOut(t) => t in s.pc && s.pc[t].CopyOut? && |s.pc[t].out| < s.pc[t].size && CopyOutFits(s, s.pc[t])
    case Finish(t) => t in s.pc && s.pc[t].CopyOut? && |s.pc[t].out| == s.pc[t].size
    case Timeout(t) => t in s.pc && (s.pc[t].SendAsleep? || s.pc[t].RecvAsleep?)
    case Reset => true
  }

  /** The copy stays inside the node's body; an invariant, spelled out so that steps are total. */
  predicate CopyInFits(s: Mq, p: Pc)
    requires p.CopyIn?
  {
    p.node < |s.body| && p.done < |s.body[p.node]|
  }

  predicate CopyOutFits(s: Mq, p: Pc)
    requires p.CopyOut?
  {
    p.node < |s.body| && |p.out| < |s.body[p.node]|
  }

  /** One pass of the sender's loop: take a node, sleep, or give up. */
  function TrySend(s: Mq, t: Tid, buf: Message, wait: bool): Mq {
    if s.lists.free != [] then
      s.(lists := TakeFree(s.lists), pc := s.pc[t := CopyIn(s.lists.free[0], buf, 0, false)])
    else if !wait then s.(pc := s.pc[t := Idle])
    else s.(sendWait := Suspend(s.sendWait, t, s.flag, s.prio), pc := s.pc[t := SendAsleep(buf)])
  }

  function TryRecv(s: Mq, t: Tid, size: nat, wait: bool): Mq {
    if s.lists.queue != [] then
      s.(lists := TakeHead(s.lists),
         pc := s.pc[t := CopyOut(s.lists.queue[0], if size > s.msgSize then s.msgSize else size, [])])
    else if !wait then s.(pc := s.pc[t := Idle])
    else s.(recvWait := Suspend(s.recvWait, t, s.flag, s.prio), pc := s.pc[t := RecvAsleep(size)])
  }

  /** Resume the first waiting receiver, if any. */
  function WakeReceiver(s: Mq): Mq {
    if s.recvWait == [] then s
    else
      var w := s.recvWait[0];
      s.(recvWait := s.recvWait[1..],
         pc := if w in s.pc && s.pc[w].RecvAsleep? then s.pc[w := RecvWoken(s.pc[w].size)] else s.pc)
  }

  function WakeSender(s: Mq): Mq {
    if s.sendWait == [] then s
    else
      var w := s.sendWait[0];
      s.(sendWait := s.sendWait[1..],
         pc := if w in s.pc && s.pc[w].SendAsleep? then s.pc[w := SendWoken(s.pc[w].buf)] else s.pc)
  }

  /** The sender's node enters the queue. */
  function Linked(s: Mq, t: Tid): Mq
    requires t in s.pc && s.pc[t].CopyIn?
  {
    var p := s.pc[t];
    s.(lists := if p.urgent then Prepend(s.lists, p.node) else Append(s.lists, p.node), pc := s.pc[t := Idle])
  }

  /** The receiver's node goes back to the free chain. */
  function Freed(s: Mq, t: Tid): Mq
    requires t in s.pc && s.pc[t].CopyOut?
  {
    s.(lists := PutFree(s.lists, s.pc[t].node), pc := s.pc[t := Idle])
  }

  function Asleep(p: Pc): bool {
    p.SendAsleep? || p.RecvAsleep?
  }

  function Next(s: Mq, e: Event): Mq
    requires Can(s, e)
  {
    match e
    case SendCall(t, buf, wait) => if |buf| > s.msgSize then s else TrySend(s, t, buf, wait)
    case SendAgain(t, wait) => TrySend(s, t, s.pc[t].buf, wait)
    case UrgentCall(t, buf) =>
      if |buf| > s.msgSize || s.lists.free == [] then s
      else s.(lists := TakeFree(s.lists), pc := s.pc[t := CopyIn(s.lists.free[0], buf, 0, true)])
    case CopyByteIn(t) =>
      var p := s.pc[t];
      s.(body := s.body[p.node := s.body[p.node][p.done := p.buf[p.done]]], pc := s.pc[t := p.(done := p.done + 1)])
    case Link(t) => WakeReceiver(Linked(s, t))
    case RecvCall(t, size, wait) => TryRecv(s, t, size, wait)
    case RecvAgain(t, wait) => TryRecv(s, t, s.pc[t].size, wait)
    case CopyByteOut(t) =>
      var p := s.pc[t];
      s.(pc := s.pc[t := p.(out := p.out + [s.body[p.node][|p.out|]])])
    case Finish(t) => WakeSender(Freed(s, t))
    case Timeout(t) =>
      s.(sendWait := Without(s.sendWait, t), recvWait := Without(s.recvWait, t), pc := s.pc[t := Idle])
    case Reset =>
      s.(sendWait := [], recvWait := [], lists := Drain(s.lists),
         pc := map t | t in s.pc :: if Asleep(s.pc[t]) then Idle else s.pc[t])
  }

  // ------------------------------------------------------------------ each node in one place

  /** The node a thread holds, or -1. */
  function Held(p: Pc): int {
    if p.CopyIn? || p.CopyOut? then p.node else -1
  }

  ghost predicate HeldBySome(pc: map<Tid, Pc>, v: int) {
    exists t :: t in pc && Held(pc[t]) == v
  }

  /** Each of the n nodes is in exactly one place: the free chain, the queue, or the hands of one
      thread; and on its list only once. */
  ghost predicate Partition(l: Lists, pc: map<Tid, Pc>, n: nat) {
    && Distinct(l.free) && Distinct(l.queue)
    && (forall v | v in l.free :: v < n && v !in l.queue)
    && (forall v | v in l.queue :: v < n)
    && (forall t | t in pc :: Held(pc[t]) < n)
    && (forall t | t in pc :: Held(pc[t]) >= 0 ==> Held(pc[t]) !in l.free && Held(pc[t]) !in l.queue)
    && (forall t, u | t in pc && u in pc && t != u && Held(pc[t]) >= 0 :: Held(pc[t]) != Held(pc[u]))
    && (forall v: nat | v < n :: v in l.free || v in l.queue || HeldBySome(pc, v))
  }

  /** Threads may change what they do as long as they keep their nodes. */
  lemma PartitionSameHands(l: Lists, pc: map<Tid, Pc>, pc': map<Tid, Pc>, n: nat)
    requires Partition(l, pc, n) && pc'.Keys == pc.Keys
    requires forall t | t in pc :: Held(pc'[t]) == Held(pc[t])
    ensures Partition(l, pc', n)
  {
    forall v: nat | v < n ensures v in l.free || v in l.queue || HeldBySome(pc', v) {
      if HeldBySome(pc, v) {
        var t :| t in pc && Held(pc[t]) == v;
        assert Held(pc'[t]) == v;
      }
    }
  }

  ghost predicate Taken(l: Lists, l': Lists, v: nat) {
    || (l.free != [] && v == l.free[0] && l' == TakeFree(l))
    || (l.queue != [] && v == l.queue[0] && l' == TakeHead(l))
  }

  lemma TakeMembers(l: Lists, l': Lists, v: nat)
    requires Taken(l, l', v) && Distinct(l.free) && Distinct(l.queue)
    requires forall x | x in l.free :: x !in l.queue
    ensures Distinct(l'.free) && Distinct(l'.queue)
    ensures v in l.free || v in l.queue
    ensures v !in l'.free && v !in l'.queue
    ensures forall x | x in l'.free :: x in l.free
    ensures forall x | x in l'.queue :: x in l.queue
    ensures forall x | x != v && x in l.free :: x in l'.free
    ensures forall x | x != v && x in l.queue :: x in l'.queue
  {
    assert v in l.free || v in l.queue;
  }

  /** A listed node moves into the empty hands of thread t. */
  lemma PartitionTake(l: Lists, l': Lists, pc: map<Tid, Pc>, t: Tid, p: Pc, v: nat, n: nat)
    requires Partition(l, pc, n) && t in pc && Held(pc[t]) < 0 && Held(p) == v
    requires Taken(l, l', v)
    ensures Partition(l', pc[t := p], n)
  {
    hide Taken, Held;
    TakeMembers(l, l', v);
    var pc' := pc[t := p];
    forall x: nat | x < n ensures x in l'.free || x in l'.queue || HeldBySome(pc', x) {
      if x == v {
        assert Held(pc'[t]) == x;
      } else if HeldBySome(pc, x) {
        var u :| u in pc && Held(pc[u]) == x;
        assert Held(pc'[u]) == x;
      }
    }
  }

  /** Thread t puts its node on one of the lists and empties its hands. */
  lemma PartitionPut(l: Lists, l': Lists, pc: map<Tid, Pc>, t: Tid, n: nat)
    requires Partition(l, pc, n) && t in pc && Held(pc[t]) >= 0
    requires var v := Held(pc[t]); l' == Append(l, v) || l' == Prepend(l, v) || l' == PutFree(l, v)
    ensures Partition(l', pc[t := Idle], n)
  {
    var v, pc' := Held(pc[t]), pc[t := Idle];
    PutMembers(l, l', v);
    forall x: nat | x < n ensures x in l'.free || x in l'.queue || HeldBySome(pc', x) {
      if x != v && HeldBySome(pc, x) {
        var u :| u in pc && Held(pc[u]) == x;
        assert Held(pc'[u]) == x;
      }
    }
  }

  lemma PutMembers(l: Lists, l': Lists, v: nat)
    requires Distinct(l.free) && Distinct(l.queue) && v !in l.free && v !in l.queue
    requires l' == Append(l, v) || l' == Prepend(l, v) || l' == PutFree(l, v)
    ensures Distinct(l'.free) && Distinct(l'.queue)
    ensures forall x :: x in l'.free <==> x in l.free || (x == v && l' == PutFree(l, v))
    ensures forall x :: x in l'.queue <==> x in l.queue || (x == v && l' != PutFree(l, v))
  {
    assert v in l'.free || v in l'.queue;
  }

  lemma {:induction false} PartitionDrain(l: Lists, pc: map<Tid, Pc>, n: nat)
    requires Partition(l, pc, n)
    ensures Partition(Drain(l), pc, n) && Drain(l).queue == []
    decreases |l.queue|
  {
    if l.queue != [] {
      var m := Lists([l.queue[0]] + l.free, l.queue[1..]);
      DrainStep(l, pc, n);
      PartitionDrain(m, pc, n);
    }
  }

  lemma DrainStep(l: Lists, pc: map<Tid, Pc>, n: nat)
    requires Partition(l, pc, n) && l.queue != []
    ensures Partition(Lists([l.queue[0]] + l.free, l.queue[1..]), pc, n)
  {
    var m := Lists([l.queue[0]] + l.free, l.queue[1..]);
    assert l.queue[0] in l.queue;
    assert forall x :: x in l.queue <==> x == l.queue[0] || x in m.queue;
    assert forall x :: x in m.free <==> x == l.queue[0] || x in l.free;
  }

  /** Waking the head of a wait list changes nobody's node. */
  lemma WakeKeepsHands(s: Mq)
    ensures WakeReceiver(s).pc.Keys == s.pc.Keys && WakeSender(s).pc.Keys == s.pc.Keys
    ensures forall t | t in s.pc :: Held(WakeReceiver(s).pc[t]) == Held(s.pc[t]) == Held(WakeSender(s).pc[t])
  {
  }

  lemma TrySendPartition(s: Mq, t: Tid, buf: Message, wait: bool)
    requires Partition(s.lists, s.pc, s.maxMsgs) && t in s.pc && Held(s.pc[t]) < 0
    ensures var r := TrySend(s, t, buf, wait); Partition(r.lists, r.pc, r.maxMsgs)
  {
    var r := TrySend(s, t, buf, wait);
    if s.lists.free != [] {
      PartitionTake(s.lists, r.lists, s.pc, t, r.pc[t], s.lists.free[0], s.maxMsgs);
    } else {
      PartitionSameHands(s.lists, s.pc, r.pc, s.maxMsgs);
    }
  }

  lemma TryRecvPartition(s: Mq, t: Tid, size: nat, wait: bool)
    requires Partition(s.lists, s.pc, s.maxMsgs) && t in s.pc && Held(s.pc[t]) < 0
    ensures var r := TryRecv(s, t, size, wait); Partition(r.lists, r.pc, r.maxMsgs)
  {
    var r := TryRecv(s, t, size, wait);
    if s.lists.queue != [] {
      PartitionTake(s.lists, r.lists, s.pc, t, r.pc[t], s.lists.queue[0], s.maxMsgs);
    } else {
      PartitionSameHands(s.lists, s.pc, r.pc, s.maxMsgs);
    }
  }

  /** Every step of every thread keeps each node in exactly one place. */
  lemma PartitionKept(s: Mq, e: Event)
    requires Can(s, e) && Partition(s.lists, s.pc, s.maxMsgs)
    ensures var r := Next(s, e); Partition(r.lists, r.pc, r.maxMsgs)
  {
    hide Partition, HeldBySome, Drain;
    var r := Next(s, e);
    match e
    case SendCall(t, buf, wait) => TrySendPartition(s, t, buf, wait);
    case SendAgain(t, wait) => TrySendPartition(s, t, s.pc[t].buf, wait);
    case UrgentCall(t, buf) =>
      if |buf| <= s.msgSize && s.lists.free != [] {
        PartitionTake(s.lists, r.lists, s.pc, t, r.pc[t], s.lists.free[0], s.maxMsgs);
      }
    case CopyByteIn(t) => PartitionSameHands(s.lists, s.pc, r.pc, s.maxMsgs);
    case Link(t) =>
      var m := Linked(s, t);
      PartitionPut(s.lists, m.lists, s.pc, t, s.maxMsgs);
      WakeKeepsHands(m);
      PartitionSameHands(m.lists, m.pc, r.pc, s.maxMsgs);
    case RecvCall(t, size, wait) => TryRecvPartition(s, t, size, wait);
    case RecvAgain(t, wait) => TryRecvPartition(s, t, s.pc[t].size, wait);
    case CopyByteOut(t) => PartitionSameHands(s.lists, s.pc, r.pc, s.maxMsgs);
    case Finish(t) =>
      var m := Freed(s, t);
      PartitionPut(s.lists, m.lists, s.pc, t, s.maxMsgs);
      WakeKeepsHands(m);
      PartitionSameHands(m.lists, m.pc, r.pc, s.maxMsgs);
    case Timeout(t) => PartitionSameHands(s.lists, s.pc, r.pc, s.maxMsgs);
    case Reset =>
      PartitionDrain(s.lists, s.pc, s.maxMsgs);
      PartitionSameHands(r.lists, s.pc, r.pc, s.maxMsgs);
  }

  // ------------------------------------------------------------------ wait lists and lost wake-ups

  /** The wait lists hold exactly the sleeping threads, each once. */
  ghost predicate Waits(pc: map<Tid, Pc>, recvWait: seq<Tid>, sendWait: seq<Tid>) {
    && Distinct(recvWait) && Distinct(sendWait)
    && (forall t :: t in recvWait <==> t in pc && pc[t].RecvAsleep?)
    && (forall t :: t in sendWait <==> t in pc && pc[t].SendAsleep?)
  }

  lemma WaitsMove(pc: map<Tid, Pc>, rw: seq<Tid>, sw: seq<Tid>, t: Tid, p: Pc, flag: Flag, prio: map<Tid, int>)
    requires Waits(pc, rw, sw) && t in pc && !Asleep(pc[t])
    ensures p.RecvAsleep? ==> Waits(pc[t := p], Suspend(rw, t, flag, prio), sw)
    ensures p.SendAsleep? ==> Waits(pc[t := p], rw, Suspend(sw, t, flag, prio))
    ensures !Asleep(p) ==> Waits(pc[t := p], rw, sw)
  {
    SuspendMembers(rw, t, flag, prio);
    SuspendMembers(sw, t, flag, prio);
  }

  lemma WakeWaits(s: Mq)
    requires Waits(s.pc, s.recvWait, s.sendWait)
    ensures var r := WakeReceiver(s); Waits(r.pc, r.recvWait, r.sendWait)
    ensures var r := WakeSender(s); Waits(r.pc, r.recvWait, r.sendWait)
  {
    if s.recvWait != [] { HeadLeaves(s.recvWait); }
    if s.sendWait != [] { HeadLeaves(s.sendWait); }
  }

  lemma HeadLeaves(w: seq<Tid>)
    requires Distinct(w) && w != []
    ensures Distinct(w[1..]) && forall t :: t in w[1..] <==> t in w && t != w[0]
  {
  }

  lemma WaitsTimeout(pc: map<Tid, Pc>, rw: seq<Tid>, sw: seq<Tid>, t: Tid)
    requires Waits(pc, rw, sw) && t in pc
    ensures Waits(pc[t := Idle], Without(rw, t), Without(sw, t))
  {
    WithoutMembers(rw, t);
    WithoutMembers(sw, t);
  }

  lemma WaitsReset(s: Mq)
    ensures var r := Next(s, Reset); Waits(r.pc, r.recvWait, r.sendWait)
  {
    hide Drain;
  }

  lemma WaitsTrySend(s: Mq, t: Tid, buf: Message, wait: bool)
    requires Waits(s.pc, s.recvWait, s.sendWait) && t in s.pc && !Asleep(s.pc[t])
    ensures var r := TrySend(s, t, buf, wait); Waits(r.pc, r.recvWait, r.sendWait)
  {
    hide Waits, Suspend;
    WaitsMove(s.pc, s.recvWait, s.sendWait, t, TrySend(s, t, buf, wait).pc[t], s.flag, s.prio);
  }

  lemma WaitsTryRecv(s: Mq, t: Tid, size: nat, wait: bool)
    requires Waits(s.pc, s.recvWait, s.sendWait) && t in s.pc && !Asleep(s.pc[t])
    ensures var r := TryRecv(s, t, size, wait); Waits(r.pc, r.recvWait, r.sendWait)
  {
    hide Waits, Suspend;
    WaitsMove(s.pc, s.recvWait, s.sendWait, t, TryRecv(s, t, size, wait).pc[t], s.flag, s.prio);
  }

  /** Steps keep the wait lists and the sleeping threads in agreement. */
  lemma WaitsKept(s: Mq, e: Event)
    requires Can(s, e) && Waits(s.pc, s.recvWait, s.sendWait)
    ensures var r := Next(s, e); Waits(r.pc, r.recvWait, r.sendWait)
  {
    hide Waits, Suspend, Without, Drain;
    match e
    case SendCall(t, buf, wait) => WaitsTrySend(s, t, buf, wait);
    case SendAgain(t, wait) => WaitsTrySend(s, t, s.pc[t].buf, wait);
    case RecvCall(t, size, wait) => WaitsTryRecv(s, t, size, wait);
    case RecvAgain(t, wait) => WaitsTryRecv(s, t, s.pc[t].size, wait);
    case Timeout(t) => WaitsTimeout(s.pc, s.recvWait, s.sendWait, t);
    case Reset => WaitsReset(s);
    case Link(t) =>
      WaitsMove(s.pc, s.recvWait, s.sendWait, t, Idle, s.flag, s.prio);
      WakeWaits(Linked(s, t));
    case Finish(t) =>
      WaitsMove(s.pc, s.recvWait, s.sendWait, t, Idle, s.flag, s.prio);
      WakeWaits(Freed(s, t));
    case _ =>
      var t := e.t;
      WaitsMove(s.pc, s.recvWait, s.sendWait, t, Next(s, e).pc[t], s.flag, s.prio);
  }

  /** Receivers (senders) that were taken off the wait list and have not run since. */
  function Woken(pc: map<Tid, Pc>, recv: bool): set<Tid> {
    set t | t in pc && if recv then pc[t].RecvWoken? else pc[t].SendWoken?
  }

  /** Threads with a node in their hands. */
  function Holders(pc: map<Tid, Pc>): set<Tid> {
    set t | t in pc && Held(pc[t]) >= 0
  }

  lemma WokenCount(pc: map<Tid, Pc>, t: Tid, p: Pc)
    requires t in pc
    ensures |Woken(pc[t := p], true)| == |Woken(pc, true)| - Bit(pc[t].RecvWoken?) + Bit(p.RecvWoken?)
    ensures |Woken(pc[t := p], false)| == |Woken(pc, false)| - Bit(pc[t].SendWoken?) + Bit(p.SendWoken?)
  {
    WokenAfter(pc, t, p, true);
    WokenAfter(pc, t, p, false);
    hide Woken;
    SetCount(Woken(pc, true), t);
    SetCount(Woken(pc, false), t);
  }

  lemma WokenAfter(pc: map<Tid, Pc>, t: Tid, p: Pc, recv: bool)
    requires t in pc
    ensures t in Woken(pc, recv) <==> if recv then pc[t].RecvWoken? else pc[t].SendWoken?
    ensures Woken(pc[t := p], recv) == if (if recv then p.RecvWoken? else p.SendWoken?) then Woken(pc, recv) + {t} else Woken(pc, recv) - {t}
  {
  }

  lemma SetCount(a: set<Tid>, t: Tid)
    ensures |a + {t}| == |a| + Bit(t !in a) && |a - {t}| == |a| - Bit(t in a)
  {
    if t in a { assert a + {t} == a; }
  }

  lemma HoldersCount(pc: map<Tid, Pc>, t: Tid, p: Pc)
    requires t in pc
    ensures |Holders(pc[t := p])| == |Holders(pc)| - Bit(Held(pc[t]) >= 0) + Bit(Held(p) >= 0)
  {
    var a := Holders(pc);
    assert Holders(pc[t := p]) == if Held(p) >= 0 then a + {t} else a - {t};
  }

  /** No lost wake-up: while a receiver sleeps, every queued message is matched by a receiver
      that was woken and has still to run; likewise senders and free nodes. */
  ghost predicate NoLostWakeup(s: Mq) {
    && (s.recvWait != [] ==> |s.lists.queue| <= |Woken(s.pc, true)|)
    && (s.sendWait != [] ==> |s.lists.free| <= |Woken(s.pc, false)|)
  }

  lemma WakeupTrySend(s: Mq, t: Tid, buf: Message, wait: bool)
    requires NoLostWakeup(s) && t in s.pc && !s.pc[t].RecvWoken?
    ensures NoLostWakeup(TrySend(s, t, buf, wait))
  {
    hide Suspend, Woken;
    WokenCount(s.pc, t, TrySend(s, t, buf, wait).pc[t]);
  }

  lemma WakeupTryRecv(s: Mq, t: Tid, size: nat, wait: bool)
    requires NoLostWakeup(s) && t in s.pc && !s.pc[t].SendWoken?
    ensures NoLostWakeup(TryRecv(s, t, size, wait))
  {
    hide Suspend, Woken;
    WokenCount(s.pc, t, TryRecv(s, t, size, wait).pc[t]);
  }

  lemma WakeupLink(s: Mq, t: Tid)
    requires NoLostWakeup(s) && Waits(s.pc, s.recvWait, s.sendWait) && Can(s, Link(t))
    ensures NoLostWakeup(Next(s, Link(t)))
  {
    WokenCount(s.pc, t, Idle);
    WaitsMove(s.pc, s.recvWait, s.sendWait, t, Idle, s.flag, s.prio);
    hide Waits, Woken;
    WakeCounts(Linked(s, t));
  }

  lemma WakeupFinish(s: Mq, t: Tid)
    requires NoLostWakeup(s) && Waits(s.pc, s.recvWait, s.sendWait) && Can(s, Finish(t))
    ensures NoLostWakeup(Next(s, Finish(t)))
  {
    WokenCount(s.pc, t, Idle);
    WaitsMove(s.pc, s.recvWait, s.sendWait, t, Idle, s.flag, s.prio);
    hide Waits, Woken;
    WakeCounts(Freed(s, t));
  }

  lemma WakeupKept(s: Mq, e: Event)
    requires Can(s, e) && Waits(s.pc, s.recvWait, s.sendWait) && NoLostWakeup(s)
    ensures NoLostWakeup(Next(s, e))
  {
    hide Waits, Suspend, Without, Drain, Woken;
    match e
    case Reset =>
    case SendCall(t, buf, wait) => if |buf| <= s.msgSize { WakeupTrySend(s, t, buf, wait); }
    case SendAgain(t, wait) => WakeupTrySend(s, t, s.pc[t].buf, wait);
    case RecvCall(t, size, wait) => WakeupTryRecv(s, t, size, wait);
    case RecvAgain(t, wait) => WakeupTryRecv(s, t, s.pc[t].size, wait);
    case Link(t) => WakeupLink(s, t);
    case Finish(t) => WakeupFinish(s, t);
    case Timeout(t) =>
      WokenCount(s.pc, t, Idle);
      WithoutEmpty(s.recvWait, t);
      WithoutEmpty(s.sendWait, t);
    case _ =>
      var t := e.t;
      WokenCount(s.pc, t, Next(s, e).pc[t]);
  }

  lemma WithoutEmpty(w: seq<Tid>, t: Tid)
    ensures w == [] ==> Without(w, t) == []
  {
  }

  lemma WakeCounts(s: Mq)
    requires Waits(s.pc, s.recvWait, s.sendWait)
    ensures |Woken(WakeReceiver(s).pc, true)| == |Woken(s.pc, true)| + Bit(s.recvWait != [])
    ensures |Woken(WakeReceiver(s).pc, false)| == |Woken(s.pc, false)|
    ensures |Woken(WakeSender(s).pc, false)| == |Woken(s.pc, false)| + Bit(s.sendWait != [])
    ensures |Woken(WakeSender(s).pc, true)| == |Woken(s.pc, true)|
  {
    hide Woken;
    if s.recvWait != [] {
      var w := s.recvWait[0];
      assert w in s.recvWait;
      WokenCount(s.pc, w, RecvWoken(s.pc[w].size));
    }
    if s.sendWait != [] {
      var w := s.sendWait[0];
      assert w in s.sendWait;
      WokenCount(s.pc, w, SendWoken(s.pc[w].buf));
    }
  }

  /** Counting form of the partition. */
  ghost predicate Conserved(s: Mq) {
    |s.lists.free| + |s.lists.queue| + |Holders(s.pc)| == s.maxMsgs
  }

  lemma {:induction false} DrainCount(l: Lists)
    ensures |Drain(l).free| == |l.free| + |l.queue| && Drain(l).queue == []
    decreases |l.queue|
  {
    if l.queue != [] { DrainCount(Lists([l.queue[0]] + l.free, l.queue[1..])); }
  }

  lemma ConservedKept(s: Mq, e: Event)
    requires Can(s, e) && Conserved(s)
    ensures Conserved(Next(s, e))
  {
    hide Suspend, Without, Drain, Holders;
    match e
    case Reset =>
      DrainCount(s.lists);
      HoldersReset(s);
    case Link(t) =>
      HoldersCount(s.pc, t, Idle);
      WakeHolders(Linked(s, t));
    case Finish(t) =>
      HoldersCount(s.pc, t, Idle);
      WakeHolders(Freed(s, t));
    case _ =>
      var t := e.t;
      HoldersCount(s.pc, t, Next(s, e).pc[t]);
  }

  lemma HoldersReset(s: Mq)
    ensures Holders(Next(s, Reset).pc) == Holders(s.pc)
  {
    hide Drain;
  }

  lemma WakeHolders(s: Mq)
    ensures Holders(WakeReceiver(s).pc) == Holders(s.pc) == Holders(WakeSender(s).pc)
  {
  }

  // ------------------------------------------------------------------ queueing by priority

  /** With priority queueing both wait lists have their most urgent thread in front. */
  ghost predicate Queued(s: Mq) {
    s.flag.Prio? ==> Ordered(s.recvWait, s.prio) && Ordered(s.sendWait, s.prio)
  }

  lemma HeadLeavesOrdered(w: seq<Tid>, prio: map<Tid, int>)
    requires Ordered(w, prio) && w != []
    ensures Ordered(w[1..], prio)
  {
  }

  lemma QueuedSuspend(s: Mq, t: Tid)
    requires Queued(s)
    ensures s.flag.Prio? ==> Ordered(Suspend(s.recvWait, t, s.flag, s.prio), s.prio)
    ensures s.flag.Prio? ==> Ordered(Suspend(s.sendWait, t, s.flag, s.prio), s.prio)
  {
    if s.flag.Prio? {
      SuspendOrdered(s.recvWait, t, s.prio);
      SuspendOrdered(s.sendWait, t, s.prio);
    }
  }

  lemma QueuedWake(s: Mq)
    requires Queued(s)
    ensures Queued(WakeReceiver(s)) && Queued(WakeSender(s))
  {
    if s.flag.Prio? {
      hide Ordered;
      if s.recvWait != [] { HeadLeavesOrdered(s.recvWait, s.prio); }
      if s.sendWait != [] { HeadLeavesOrdered(s.sendWait, s.prio); }
    }
  }

  lemma QueuedKept(s: Mq, e: Event)
    requires Can(s, e) && Queued(s)
    ensures Queued(Next(s, e))
  {
    hide Ordered, Suspend, Without, Drain, WakeReceiver, WakeSender;
    match e
    case SendCall(t, _, _) => QueuedSuspend(s, t);
    case SendAgain(t, _) => QueuedSuspend(s, t);
    case RecvCall(t, _, _) => QueuedSuspend(s, t);
    case RecvAgain(t, _) => QueuedSuspend(s, t);
    case Link(t) => QueuedWake(Linked(s, t));
    case Finish(t) => QueuedWake(Freed(s, t));
    case Timeout(t) =>
      if s.flag.Prio? {
        WithoutOrdered(s.recvWait, t, s.prio);
        WithoutOrdered(s.sendWait, t, s.prio);
      }
    case Reset => NobodyOrdered(s.prio);
    case _ =>
  }

  /** A link (a finished receive) wakes the receiver (sender) in front, and nobody else; with
      priority queueing no thread that waits is more urgent. */
  lemma WokenMostUrgent(s: Mq, k: nat)
    requires Inv(s)
    ensures var r := WakeReceiver(s);
            if s.recvWait == [] then r == s
            else var w := s.recvWait[0];
                 && w in s.pc && s.pc[w].RecvAsleep? && r.recvWait == s.recvWait[1..] && r.sendWait == s.sendWait
                 && r.pc == s.pc[w := RecvWoken(s.pc[w].size)]
                 && (s.flag.Prio? && k < |s.recvWait| ==> Pri(s.prio, w) <= Pri(s.prio, s.recvWait[k]))
    ensures var r := WakeSender(s);
            if s.sendWait == [] then r == s
            else var w := s.sendWait[0];
                 && w in s.pc && s.pc[w].SendAsleep? && r.sendWait == s.sendWait[1..] && r.recvWait == s.recvWait
                 && r.pc == s.pc[w := SendWoken(s.pc[w].buf)]
                 && (s.flag.Prio? && k < |s.sendWait| ==> Pri(s.prio, w) <= Pri(s.prio, s.sendWait[k]))
  {
    hide Partition, NoLostWakeup, Conserved;
    if s.recvWait != [] { assert s.recvWait[0] in s.recvWait; }
    if s.sendWait != [] { assert s.sendWait[0] in s.sendWait; }
  }

  /** A call that has to sleep enters its own wait list at its place; no other list changes. */
  lemma SleepsInItsPlace(s: Mq, e: Event)
    requires Can(s, e) && (e.SendCall? || e.SendAgain? || e.UrgentCall? || e.RecvCall? || e.RecvAgain?)
    ensures var r := Next(s, e);
            && (if r.pc[e.t].SendAsleep? then Enters(s.sendWait, r.sendWait, e.t, s.flag, s.prio) else r.sendWait == s.sendWait)
            && (if r.pc[e.t].RecvAsleep? then Enters(s.recvWait, r.recvWait, e.t, s.flag, s.prio) else r.recvWait == s.recvWait)
  {
    hide Suspend, Enters;
    var r := Next(s, e);
    SuspendEnters(s.sendWait, r.sendWait, e.t, s.flag, s.prio);
    SuspendEnters(s.recvWait, r.recvWait, e.t, s.flag, s.prio);
  }

  /** A sleeper whose time is up leaves its own wait list; no other thread moves. */
  lemma TimedOutLeaves(s: Mq, t: Tid)
    requires Inv(s) && Can(s, Timeout(t))
    ensures var r := Next(s, Timeout(t));
            && (if s.pc[t].SendAsleep? then Leaves(s.sendWait, r.sendWait, t) else r.sendWait == s.sendWait)
            && (if s.pc[t].RecvAsleep? then Leaves(s.recvWait, r.recvWait, t) else r.recvWait == s.recvWait)
  {
    assert t in s.sendWait <==> s.pc[t].SendAsleep?;
    assert t in s.recvWait <==> s.pc[t].RecvAsleep?;
    if t in s.sendWait { WithoutLeaves(s.sendWait, t); }
    if t in s.recvWait { WithoutLeaves(s.recvWait, t); }
    hide Partition, Waits, NoLostWakeup, Conserved, Queued;
  }

  // ------------------------------------------------------------------ whole runs

  ghost predicate Inv(s: Mq) {
    && Partition(s.lists, s.pc, s.maxMsgs)
    && Waits(s.pc, s.recvWait, s.sendWait)
    && NoLostWakeup(s)
    && Conserved(s)
    && Queued(s)
  }

  lemma InitInv(msgSize: nat, maxMsgs: nat, flag: Flag, prio: map<Tid, int>, threads: set<Tid>)
    ensures Inv(Init(msgSize, maxMsgs, flag, prio, threads))
  {
    var s := Init(msgSize, maxMsgs, flag, prio, threads);
    assert Holders(s.pc) == {};
    forall v: nat | v < maxMsgs ensures v in s.lists.free {
      assert s.lists.free[maxMsgs - 1 - v] == v;
    }
  }

  predicate Runs(s: Mq, es: seq<Event>)
    decreases |es|
  {
    es == [] || (Can(s, es[0]) && Runs(Next(s, es[0]), es[1..]))
  }

  function After(s: Mq, es: seq<Event>): Mq
    requires Runs(s, es)
    decreases |es|
  {
    if es == [] then s else After(Next(s, es[0]), es[1..])
  }

  lemma {:induction false} AnyInterleaving(s: Mq, es: seq<Event>)
    requires Inv(s) && Runs(s, es)
    ensures Inv(After(s, es))
    decreases |es|
  {
    if es != [] {
      hide Next, Partition, Waits, NoLostWakeup, Conserved, Queued;
      PartitionKept(s, es[0]);
      WaitsKept(s, es[0]);
      WakeupKept(s, es[0]);
      ConservedKept(s, es[0]);
      QueuedKept(s, es[0]);
      SameSize(s, es[0]);
      AnyInterleaving(Next(s, es[0]), es[1..]);
    }
  }

  lemma SameSize(s: Mq, e: Event)
    requires Can(s, e)
    ensures Next(s, e).maxMsgs == s.maxMsgs && Next(s, e).msgSize == s.msgSize
  {
    hide Drain, Suspend, Without;
  }

  /** Once the woken threads have run, nobody sleeps beside a message or a free node; and a full
      queue of sleeping senders means that messages or busy threads account for every node. */
  lemma NobodySleepsBesideWork(s: Mq)
    requires Inv(s)
    ensures Woken(s.pc, true) == {} && s.lists.queue != [] ==> forall t | t in s.pc :: !s.pc[t].RecvAsleep?
    ensures Woken(s.pc, false) == {} && (exists t :: t in s.pc && s.pc[t].SendAsleep?)
            ==> |s.lists.queue| + |Holders(s.pc)| == s.maxMsgs
  {
    hide Partition, Woken, Holders;
    if Woken(s.pc, true) == {} && s.lists.queue != [] {
      assert s.recvWait == [];
    }
  }
}
