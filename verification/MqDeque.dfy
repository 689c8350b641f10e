/** The concurrent message queue of MqProtocol refines a bounded double-ended queue of messages,
    although messages are copied in and out byte by byte with interrupts enabled. */
module MqDeque {
  import opened MqLists
  import opened Sequences
  import opened WaitList
  import opened MqProtocol

  datatype Offer = Offer(m: Message, urgent: bool)

  /** Where a thread stands: outside, putting a message into its place, taking one out, asleep,
      or woken and about to try again. */
  datatype Role = Outside | Placing | Taking | WaitsToSend | WaitsToReceive | SendsAgain | ReceivesAgain

  /** The specification: the messages in the queue; what each caller offered or asked for; the
      message each receiver popped; and where every thread stands. */
  datatype Deque = Deque(
    items: seq<Message>, offers: map<Tid, Offer>, asked: map<Tid, nat>, taken: map<Tid, Message>, role: map<Tid, Role>)

  /** How an attempt ends: the thread got a place or a message, sleeps, or returned an error. */
  datatype Outcome = Served | Sleeps | Refused

  /** `wait` says whether the caller gave a non-zero timeout; `woken` holds the threads woken. */
  datatype Action =
    | Offers(t: Tid, offer: Offer, wait: bool, o: Outcome)
    | Resends(t: Tid, wait: bool, o: Outcome)
    | Enqueues(t: Tid, woken: set<Tid>)
    | Asks(t: Tid, size: nat, wait: bool, o: Outcome)
    | Retries(t: Tid, wait: bool, o: Outcome)
    | Returns(t: Tid, out: Message, woken: set<Tid>)
    | GivesUp(t: Tid)
    | Clear
    | Quiet

  /** `out` is what a receiver that asked for `size` bytes gets of message m. */
  predicate Receives(m: Message, size: nat, msgSize: nat, out: Message) {
    && |out| == Clip(size, msgSize)
    && forall i | 0 <= i < |m| && i < |out| :: out[i] == m[i]
  }

  function Clip(size: nat, msgSize: nat): nat {
    if size > msgSize then msgSize else size
  }

  predicate Stands(d: Deque, t: Tid, r: Role) {
    t in d.role && d.role[t] == r
  }

  /** The threads that have a place of the queue in their hands. */
  function Busy(role: map<Tid, Role>): set<Tid> {
    set t | t in role && (role[t].Placing? || role[t].Taking?)
  }

  predicate Full(d: Deque, maxMsgs: nat) {
    |d.items| + |Busy(d.role)| >= maxMsgs
  }

  /** An attempt is served when nothing is in its way, and sleeps only if the caller waits. */
  predicate Ends(o: Outcome, blocked: bool, wait: bool) {
    o == if !blocked then Served else if wait then Sleeps else Refused
  }

  /** Somebody of that role is woken when there is somebody, and only one. */
  predicate Wakes(d: Deque, r: Role, woken: set<Tid>) {
    && (forall w | w in woken :: Stands(d, w, r))
    && (woken == {} ==> forall t | t in d.role :: d.role[t] != r)
    && |woken| <= 1
  }

  predicate Allowed(d: Deque, a: Action, msgSize: nat, maxMsgs: nat) {
    match a
    case Offers(t, f, wait, o) =>
      Stands(d, t, Outside) && if |f.m| > msgSize then o == Refused else Ends(o, Full(d, maxMsgs), wait && !f.urgent)
    case Resends(t, wait, o) => Stands(d, t, SendsAgain) && t in d.offers && Ends(o, Full(d, maxMsgs), wait)
    case Enqueues(t, woken) =>
      && Stands(d, t, Placing) && t in d.offers && |d.offers[t].m| <= msgSize && |d.items| < maxMsgs
      && Wakes(d, WaitsToReceive, woken)
    case Asks(t, _, wait, o) => Stands(d, t, Outside) && Ends(o, d.items == [], wait)
    case Retries(t, wait, o) => Stands(d, t, ReceivesAgain) && t in d.asked && Ends(o, d.items == [], wait)
    case Returns(t, out, woken) =>
      && Stands(d, t, Taking) && t in d.taken && t in d.asked && Receives(d.taken[t], d.asked[t], msgSize, out)
      && Wakes(d, WaitsToSend, woken)
    case GivesUp(t) => Stands(d, t, WaitsToSend) || Stands(d, t, WaitsToReceive)
    case Clear => true
    case Quiet => true
  }

  function PopTo(d: Deque, t: Tid): Deque {
    if d.items == [] then d else d.(items := d.items[1..], taken := d.taken[t := d.items[0]])
  }

  function Sending(o: Outcome): Role {
    match o
    case Served => Placing
    case Sleeps => WaitsToSend
    case Refused => Outside
  }

  function Receiving(o: Outcome): Role {
    match o
    case Served => Taking
    case Sleeps => WaitsToReceive
    case Refused => Outside
  }

  function Wake(role: map<Tid, Role>, woken: set<Tid>, r: Role): map<Tid, Role> {
    map t | t in role :: if t in woken then r else role[t]
  }

  /** Where the threads stand afterwards. */
  function Roles(d: Deque, a: Action): map<Tid, Role> {
    match a
    case Offers(t, _, _, o) => d.role[t := Sending(o)]
    case Resends(t, _, o) => d.role[t := Sending(o)]
    case Enqueues(t, woken) => Wake(d.role[t := Outside], woken, ReceivesAgain)
    case Asks(t, _, _, o) => d.role[t := Receiving(o)]
    case Retries(t, _, o) => d.role[t := Receiving(o)]
    case Returns(t, _, woken) => Wake(d.role[t := Outside], woken, SendsAgain)
    case GivesUp(t) => d.role[t := Outside]
    case Clear => map t | t in d.role :: if d.role[t].WaitsToSend? || d.role[t].WaitsToReceive? then Outside else d.role[t]
    case Quiet => d.role
  }

  function Apply(d: Deque, a: Action): Deque {
    Effect(d, a).(role := Roles(d, a))
  }

  /** The action's effect on messages and calls. */
  function Effect(d: Deque, a: Action): Deque {
    match a
    case Resends(_, _, _) => d
    case Offers(t, f, _, _) => d.(offers := d.offers[t := f])
    case Enqueues(t, _) =>
      if t !in d.offers then d
      else d.(items := if d.offers[t].urgent then [d.offers[t].m] + d.items else d.items + [d.offers[t].m])
    case Asks(t, size, _, o) =>
      var e := d.(asked := d.asked[t := size]);
      if o.Served? then PopTo(e, t) else e
    case Retries(t, _, o) => if o.Served? then PopTo(d, t) else d
    case Returns(_, _, _) => d
    case GivesUp(_) => d
    case Clear => d.(items := [])
    case Quiet => d
  }

  function RoleOf(p: Pc): Role {
    match p
    case Idle => Outside
    case SendAsleep(_) => WaitsToSend
    case SendWoken(_) => SendsAgain
    case CopyIn(_, _, _, _) => Placing
    case RecvAsleep(_) => WaitsToReceive
    case RecvWoken(_) => ReceivesAgain
    case CopyOut(_, _, _) => Taking
  }

  function RolesOf(pc: map<Tid, Pc>): map<Tid, Role> {
    map t | t in pc :: RoleOf(pc[t])
  }

  /** What the thread is seen doing after its attempt. */
  function Seen(p: Pc): Outcome {
    match RoleOf(p)
    case Placing => Served
    case Taking => Served
    case WaitsToSend => Sleeps
    case WaitsToReceive => Sleeps
    case _ => Refused
  }

  /** The sleepers that no longer sleep. */
  function Risen(pc: map<Tid, Pc>, pc': map<Tid, Pc>): set<Tid> {
    set t | t in pc && t in pc' && Asleep(pc[t]) && !Asleep(pc'[t])
  }

  /** What a step looks like from outside: the arguments and results of the calls, whether the
      caller went on, went to sleep or came back, and who was woken. */
  function Label(s: Mq, e: Event): Action
    requires Can(s, e)
  {
    var r := Next(s, e);
    match e
    case SendCall(t, buf, wait) => Offers(t, Offer(buf, false), wait, Seen(r.pc[t]))
    case SendAgain(t, wait) => Resends(t, wait, Seen(r.pc[t]))
    case UrgentCall(t, buf) => Offers(t, Offer(buf, true), false, Seen(r.pc[t]))
    case Link(t) => Enqueues(t, Risen(s.pc, r.pc))
    case RecvCall(t, size, wait) => Asks(t, size, wait, Seen(r.pc[t]))
    case RecvAgain(t, wait) => Retries(t, wait, Seen(r.pc[t]))
    case Finish(t) => Returns(t, s.pc[t].out, Risen(s.pc, r.pc))
    case Timeout(t) => GivesUp(t)
    case Reset => Clear
    case _ => Quiet
  }

  predicate Prefix(m: Message, b: Message) {
    |m| <= |b| && b[..|m|] == m
  }

  ghost predicate ItemsAre(queue: seq<nat>, body: seq<Message>, items: seq<Message>) {
    && |items| == |queue|
    && forall i | 0 <= i < |queue| :: queue[i] < |body| && Prefix(items[i], body[queue[i]])
  }

  /** The thread's state agrees with its call, and its node's bytes with its half-done copy. */
  predicate Copying(p: Pc, t: Tid, body: seq<Message>, d: Deque, msgSize: nat) {
    match p
    case Idle => true
    case CopyIn(v, buf, done, urgent) =>
      && v < |body| && done <= |buf| <= msgSize && |body[v]| == msgSize && body[v][..done] == buf[..done]
      && t in d.offers && d.offers[t] == Offer(buf, urgent)
    case CopyOut(v, size, out) =>
      && v < |body| && |out| <= size <= msgSize && |body[v]| == msgSize && out == body[v][..|out|]
      && t in d.asked && size == Clip(d.asked[t], msgSize)
      && t in d.taken && Prefix(d.taken[t], body[v])
    case SendAsleep(buf) => |buf| <= msgSize && t in d.offers && d.offers[t] == Offer(buf, false)
    case SendWoken(buf) => |buf| <= msgSize && t in d.offers && d.offers[t] == Offer(buf, false)
    case RecvAsleep(size) => t in d.asked && d.asked[t] == size
    case RecvWoken(size) => t in d.asked && d.asked[t] == size
  }

  ghost predicate Related(s: Mq, d: Deque) {
    && |s.body| == s.maxMsgs
    && (forall v: nat | v < |s.body| :: |s.body[v]| == s.msgSize)
    && ItemsAre(s.lists.queue, s.body, d.items)
    && forall t | t in s.pc :: Copying(s.pc[t], t, s.body, d, s.msgSize)
  }

  /** No copy leaves the body of its node: the guards of the copy steps never bind. */
  lemma CopiesStayInside(s: Mq, d: Deque, t: Tid)
    requires Related(s, d) && t in s.pc
    ensures s.pc[t].CopyIn? && s.pc[t].done < |s.pc[t].buf| ==> Can(s, CopyByteIn(t))
    ensures s.pc[t].CopyOut? && |s.pc[t].out| < s.pc[t].size ==> Can(s, CopyByteOut(t))
  {
    assert Copying(s.pc[t], t, s.body, d, s.msgSize);
  }

  /** Only the pc and the call of one thread change. */
  lemma MovePc(s: Mq, r: Mq, d: Deque, d': Deque, t: Tid)
    requires Related(s, d) && t in s.pc && t in r.pc
    requires r.msgSize == s.msgSize && r.maxMsgs == s.maxMsgs && r.body == s.body && r.lists.queue == s.lists.queue
    requires r.pc == s.pc[t := r.pc[t]]
    requires d'.items == d.items && OthersSame(d, d', t)
    requires Copying(r.pc[t], t, s.body, d', s.msgSize)
    ensures Related(r, d')
  {
    hide ItemsAre, OthersSame;
    OthersCopying(s, d, d', t);
  }

  ghost predicate OthersSame(d: Deque, d': Deque, t: Tid) {
    forall u | u != t ::
      && (u in d.offers ==> u in d'.offers && d'.offers[u] == d.offers[u])
      && (u in d.asked ==> u in d'.asked && d'.asked[u] == d.asked[u])
      && (u in d.taken ==> u in d'.taken && d'.taken[u] == d.taken[u])
  }

  lemma OthersCopying(s: Mq, d: Deque, d': Deque, t: Tid)
    requires Related(s, d) && OthersSame(d, d', t)
    ensures forall u | u in s.pc && u != t :: Copying(s.pc[u], u, s.body, d', s.msgSize)
  {
    hide ItemsAre, Prefix;
    forall u | u in s.pc && u != t ensures Copying(s.pc[u], u, s.body, d', s.msgSize) {
      assert Copying(s.pc[u], u, s.body, d, s.msgSize);
    }
  }

  lemma FreshNode(s: Mq, d: Deque, t: Tid, buf: Message, urgent: bool)
    requires |s.body| == s.maxMsgs && (forall v: nat | v < |s.body| :: |s.body[v]| == s.msgSize)
    requires Partition(s.lists, s.pc, s.maxMsgs) && s.lists.free != [] && |buf| <= s.msgSize
    requires t in d.offers && d.offers[t] == Offer(buf, urgent)
    ensures Copying(CopyIn(s.lists.free[0], buf, 0, urgent), t, s.body, d, s.msgSize)
  {
    assert s.lists.free[0] in s.lists.free;
  }

  lemma TrySendRelated(s: Mq, d: Deque, d': Deque, t: Tid, buf: Message, wait: bool)
    requires Related(s, d) && Partition(s.lists, s.pc, s.maxMsgs) && t in s.pc && |buf| <= s.msgSize
    requires d' == d.(offers := d.offers[t := Offer(buf, false)])
    ensures Related(TrySend(s, t, buf, wait), d')
  {
    if s.lists.free != [] { FreshNode(s, d', t, buf, false); }
    hide Partition, Related, Suspend;
    MovePc(s, TrySend(s, t, buf, wait), d, d', t);
  }

  lemma PopItems(queue: seq<nat>, body: seq<Message>, items: seq<Message>)
    requires ItemsAre(queue, body, items) && queue != []
    ensures ItemsAre(queue[1..], body, items[1..])
    ensures queue[0] < |body| && Prefix(items[0], body[queue[0]])
  {
  }

  lemma TryRecvRelated(s: Mq, d: Deque, t: Tid, size: nat, wait: bool)
    requires Related(s, d) && t in s.pc
    ensures Related(TryRecv(s, t, size, wait), Effect(d, Asks(t, size, wait, Seen(TryRecv(s, t, size, wait).pc[t]))))
  {
    var r := TryRecv(s, t, size, wait);
    if s.lists.queue == [] {
      hide Related, Suspend;
      MovePc(s, r, d, Effect(d, Asks(t, size, wait, Seen(r.pc[t]))), t);
    } else {
      hide Related;
      PoppedRelated(s, d, t, size);
    }
  }

  lemma PoppedRelated(s: Mq, d: Deque, t: Tid, size: nat)
    requires Related(s, d) && t in s.pc && s.lists.queue != []
    ensures Related(TryRecv(s, t, size, true), Effect(d, Asks(t, size, true, Served)))
    ensures TryRecv(s, t, size, true) == TryRecv(s, t, size, false) && d.items != []
    ensures Effect(d, Asks(t, size, true, Served)) == Effect(d, Asks(t, size, false, Served))
    ensures Seen(TryRecv(s, t, size, true).pc[t]) == Served
  {
    PopItems(s.lists.queue, s.body, d.items);
    OthersCopying(s, d, Effect(d, Asks(t, size, true, Served)), t);
    hide ItemsAre;
  }

  /** Writing a byte to a node in flight disturbs no queued message and no other copy. */
  lemma CopyByteInRelated(s: Mq, d: Deque, t: Tid)
    requires Related(s, d) && Partition(s.lists, s.pc, s.maxMsgs) && Can(s, CopyByteIn(t))
    ensures Related(Next(s, CopyByteIn(t)), d)
  {
    var p, r := s.pc[t], Next(s, CopyByteIn(t));
    var v := p.node;
    assert Held(p) == v;
    ByteCopied(s.body[v], p.buf, p.done);
    hide Prefix, Next;
    var b := s.body[v][p.done := p.buf[p.done]];
    assert r == s.(body := s.body[v := b], pc := s.pc[t := p.(done := p.done + 1)]) by { NextByte(s, t); }
    forall u | u in r.pc ensures Copying(r.pc[u], u, r.body, d, r.msgSize) {
      assert Copying(s.pc[u], u, s.body, d, s.msgSize);
      if u != t && Held(s.pc[u]) >= 0 { assert r.body[Held(s.pc[u])] == s.body[Held(s.pc[u])]; }
    }
    forall i | 0 <= i < |s.lists.queue| ensures s.lists.queue[i] < |r.body| && Prefix(d.items[i], r.body[s.lists.queue[i]]) {
      assert s.lists.queue[i] in s.lists.queue;
    }
  }

  lemma NextByte(s: Mq, t: Tid)
    requires Can(s, CopyByteIn(t))
    ensures var p := s.pc[t];
            Next(s, CopyByteIn(t)) == s.(body := s.body[p.node := s.body[p.node][p.done := p.buf[p.done]]], pc := s.pc[t := p.(done := p.done + 1)])
  {
  }

  lemma ByteCopied(b: Message, buf: Message, done: nat)
    requires done < |buf| <= |b| && b[..done] == buf[..done]
    ensures b[done := buf[done]][..done + 1] == buf[..done + 1]
  {
    assert b[done := buf[done]][..done] == b[..done];
  }

  lemma CopyByteOutRelated(s: Mq, d: Deque, t: Tid)
    requires Related(s, d) && Can(s, CopyByteOut(t))
    ensures Related(Next(s, CopyByteOut(t)), d)
  {
    var p, r := s.pc[t], Next(s, CopyByteOut(t));
    assert Copying(p, t, s.body, d, s.msgSize);
    assert s.body[p.node][..|p.out| + 1] == p.out + [s.body[p.node][|p.out|]];
    hide Related;
    MovePc(s, r, d, d, t);
  }

  lemma LinkItems(queue: seq<nat>, body: seq<Message>, items: seq<Message>, v: nat, m: Message)
    requires ItemsAre(queue, body, items) && v < |body| && Prefix(m, body[v])
    ensures ItemsAre(queue + [v], body, items + [m])
    ensures ItemsAre([v] + queue, body, [m] + items)
  {
  }

  lemma LinkedRelated(s: Mq, d: Deque, t: Tid)
    requires Related(s, d) && Can(s, Link(t))
    ensures Related(Linked(s, t), Effect(d, Label(s, Link(t))))
  {
    var p, r := s.pc[t], Linked(s, t);
    assert Copying(p, t, s.body, d, s.msgSize);
    assert p.buf[..p.done] == p.buf;
    LinkItems(s.lists.queue, s.body, d.items, p.node, p.buf);
    hide ItemsAre, Copying;
    forall u | u in r.pc ensures Copying(r.pc[u], u, r.body, d, r.msgSize) {
      if u == t { IdleCopying(t, r.body, d, r.msgSize); }
    }
  }

  lemma IdleCopying(t: Tid, body: seq<Message>, d: Deque, msgSize: nat)
    ensures Copying(Idle, t, body, d, msgSize)
  {
  }

  lemma FreedRelated(s: Mq, d: Deque, t: Tid)
    requires Related(s, d) && Can(s, Finish(t))
    ensures Related(Freed(s, t), Effect(d, Label(s, Finish(t))))
  {
    hide ItemsAre;
  }

  /** Waking, timing out and resetting only let sleepers go on. */
  lemma SleepersRelated(s: Mq, r: Mq, d: Deque)
    requires Related(s, d)
    requires r.msgSize == s.msgSize && r.maxMsgs == s.maxMsgs && r.body == s.body && r.lists.queue == s.lists.queue
    requires r.pc.Keys == s.pc.Keys
    requires forall u | u in s.pc :: LetGo(s.pc[u], r.pc[u])
    ensures Related(r, d)
  {
    hide ItemsAre, Prefix;
    forall u | u in r.pc ensures Copying(r.pc[u], u, r.body, d, r.msgSize) {
      assert LetGo(s.pc[u], r.pc[u]);
      assert Copying(s.pc[u], u, s.body, d, s.msgSize);
    }
  }

  predicate LetGo(p: Pc, q: Pc) {
    q == p || q.Idle? || (p.RecvAsleep? && q == RecvWoken(p.size)) || (p.SendAsleep? && q == SendWoken(p.buf))
  }

  lemma WakeRelated(s: Mq, d: Deque)
    requires Related(s, d)
    ensures Related(WakeReceiver(s), d) && Related(WakeSender(s), d)
  {
    hide Related;
    SleepersRelated(s, WakeReceiver(s), d);
    SleepersRelated(s, WakeSender(s), d);
  }

  lemma ResetRelated(s: Mq, d: Deque)
    requires Related(s, d)
    ensures Related(Next(s, Reset), Effect(d, Clear))
  {
    DrainCount(s.lists);
    hide Drain;
    var m, d' := s.(lists := Drain(s.lists)), Effect(d, Clear);
    assert Related(m, d') by {
      forall u | u in s.pc ensures Copying(s.pc[u], u, s.body, d', s.msgSize) {
        assert Copying(s.pc[u], u, s.body, d, s.msgSize);
      }
    }
    hide Related;
    SleepersRelated(m, Next(s, Reset), d');
  }

  /** Forward simulation: every step of the machine is a step of the deque. */
  lemma StepRefines(s: Mq, d: Deque, e: Event)
    requires Can(s, e) && Related(s, d) && Inv(s)
    ensures Related(Next(s, e), Effect(d, Label(s, e)))
  {
    hide Related, Suspend, Without, Drain, Copying, WakeReceiver, WakeSender, Partition, Waits, NoLostWakeup, Conserved;
    var r, d' := Next(s, e), Effect(d, Label(s, e));
    match e
    case SendCall(t, buf, wait) =>
      if |buf| <= s.msgSize { TrySendRelated(s, d, d', t, buf, wait); } else { NothingDone(s, d, d', t); }
    case SendAgain(t, wait) => WaitingFits(s, d, t); TrySendRelated(s, d, d, t, s.pc[t].buf, wait);
    case UrgentCall(t, buf) =>
      if |buf| <= s.msgSize && s.lists.free != [] {
        FreshNode(s, d', t, buf, true) by { SizesFit(s, d); }
        MovePc(s, r, d, d', t);
      } else { NothingDone(s, d, d', t); }
    case CopyByteIn(t) => CopyByteInRelated(s, d, t);
    case Link(t) => LinkedRelated(s, d, t); WakeRelated(Linked(s, t), d');
    case RecvCall(t, size, wait) => TryRecvRelated(s, d, t, size, wait);
    case RecvAgain(t, wait) => AskedBefore(s, d, t); TryRecvRelated(s, d, t, s.pc[t].size, wait);
    case CopyByteOut(t) => CopyByteOutRelated(s, d, t);
    case Finish(t) => FreedRelated(s, d, t); WakeRelated(Freed(s, t), d');
    case Timeout(t) => SleepersRelated(s, r, d);
    case Reset => ResetRelated(s, d);
  }

  lemma SizesFit(s: Mq, d: Deque)
    requires Related(s, d)
    ensures |s.body| == s.maxMsgs && (forall v: nat | v < |s.body| :: |s.body[v]| == s.msgSize)
  {
  }

  lemma NothingDone(s: Mq, d: Deque, d': Deque, t: Tid)
    requires Related(s, d) && t in s.pc && s.pc[t].Idle? && d'.items == d.items && OthersSame(d, d', t)
    ensures Related(s, d')
  {
    IdleCopying(t, s.body, d', s.msgSize);
    hide Copying, ItemsAre;
    OthersCopying(s, d, d', t);
  }

  lemma AskedBefore(s: Mq, d: Deque, t: Tid)
    requires Related(s, d) && t in s.pc && s.pc[t].RecvWoken?
    ensures t in d.asked && d.asked[t] == s.pc[t].size && d.(asked := d.asked[t := s.pc[t].size]) == d
  {
    assert Copying(s.pc[t], t, s.body, d, s.msgSize);
    assert d.asked[t := s.pc[t].size] == d.asked;
  }

  lemma WaitingFits(s: Mq, d: Deque, t: Tid)
    requires Related(s, d) && t in s.pc && s.pc[t].SendWoken?
    ensures |s.pc[t].buf| <= s.msgSize
    ensures d.(offers := d.offers[t := Offer(s.pc[t].buf, false)]) == d
  {
    assert Copying(s.pc[t], t, s.body, d, s.msgSize);
    assert d.offers[t := Offer(s.pc[t].buf, false)] == d.offers;
  }

  /** The machine's threads stand where the deque says. */
  lemma RolesFollow(s: Mq, d: Deque, e: Event)
    requires Can(s, e) && d.role == RolesOf(s.pc) && Waits(s.pc, s.recvWait, s.sendWait)
    ensures Roles(d, Label(s, e)) == RolesOf(Next(s, e).pc)
  {
    hide Next, Label, Roles, RolesOf, Waits, Risen, Wake;
    match e
    case Reset => RolesReset(s, d); RolesLabel(s, d, e);
    case Link(t) => LinkRoles(s, t); RolesLabel(s, d, e);
    case Finish(t) => FinishRoles(s, t); RolesLabel(s, d, e);
    case _ =>
      StepMovesOne(s, e);
      RoleMoves(s.pc, e.t, Next(s, e).pc[e.t]);
      RoleSeen(s, d, e);
  }

  lemma RolesLabel(s: Mq, d: Deque, e: Event)
    requires Can(s, e)
    ensures e.Link? ==> Roles(d, Label(s, e)) == Wake(d.role[e.t := Outside], Risen(s.pc, Next(s, e).pc), ReceivesAgain)
    ensures e.Finish? ==> Roles(d, Label(s, e)) == Wake(d.role[e.t := Outside], Risen(s.pc, Next(s, e).pc), SendsAgain)
    ensures e.Reset? ==> Label(s, e) == Clear
  {
    hide Next, Wake, Risen;
  }

  lemma RoleSeen(s: Mq, d: Deque, e: Event)
    requires Can(s, e) && !e.Reset? && !e.Link? && !e.Finish?
    ensures Roles(d, Label(s, e)) == if e.CopyByteIn? || e.CopyByteOut? then d.role else d.role[e.t := RoleOf(Next(s, e).pc[e.t])]
  {
    hide Suspend, Without;
  }

  lemma StepMovesOne(s: Mq, e: Event)
    requires Can(s, e) && !e.Reset? && !e.Link? && !e.Finish?
    ensures e.t in Next(s, e).pc && Next(s, e).pc == s.pc[e.t := Next(s, e).pc[e.t]]
    ensures e.CopyByteIn? || e.CopyByteOut? ==> RoleOf(Next(s, e).pc[e.t]) == RoleOf(s.pc[e.t])
  {
    hide Suspend, Without;
  }

  lemma RoleMoves(pc: map<Tid, Pc>, t: Tid, p: Pc)
    requires t in pc
    ensures RolesOf(pc[t := p]) == RolesOf(pc)[t := RoleOf(p)]
    ensures RoleOf(p) == RoleOf(pc[t]) ==> RolesOf(pc)[t := RoleOf(p)] == RolesOf(pc)
  {
  }

  lemma RolesReset(s: Mq, d: Deque)
    requires d.role == RolesOf(s.pc)
    ensures Roles(d, Clear) == RolesOf(Next(s, Reset).pc)
  {
    hide Drain;
  }

  lemma LinkRoles(s: Mq, t: Tid)
    requires Can(s, Link(t)) && Waits(s.pc, s.recvWait, s.sendWait)
    ensures var r := Next(s, Link(t));
            && RolesOf(r.pc) == Wake(RolesOf(s.pc)[t := Outside], Risen(s.pc, r.pc), ReceivesAgain)
            && Risen(s.pc, r.pc) == (if s.recvWait == [] then {} else {s.recvWait[0]})
  {
    if s.recvWait != [] { assert s.recvWait[0] in s.recvWait; }
    hide Waits;
  }

  lemma FinishRoles(s: Mq, t: Tid)
    requires Can(s, Finish(t)) && Waits(s.pc, s.recvWait, s.sendWait)
    ensures var r := Next(s, Finish(t));
            && RolesOf(r.pc) == Wake(RolesOf(s.pc)[t := Outside], Risen(s.pc, r.pc), SendsAgain)
            && Risen(s.pc, r.pc) == (if s.sendWait == [] then {} else {s.sendWait[0]})
  {
    if s.sendWait != [] { assert s.sendWait[0] in s.sendWait; }
    hide Waits;
  }

  lemma BusyHolds(s: Mq)
    ensures Busy(RolesOf(s.pc)) == Holders(s.pc)
  {
  }

  lemma RolesIgnored(s: Mq, d: Deque, role: map<Tid, Role>)
    requires Related(s, d)
    ensures Related(s, d.(role := role))
  {
    var d' := d.(role := role);
    hide Prefix;
    forall t | t in s.pc ensures Copying(s.pc[t], t, s.body, d', s.msgSize) {
      assert Copying(s.pc[t], t, s.body, d, s.msgSize);
    }
  }

  /** Nodes are short exactly when the deque is full. */
  lemma FullWhen(s: Mq, d: Deque)
    requires ItemsAre(s.lists.queue, s.body, d.items) && Conserved(s) && d.role == RolesOf(s.pc)
    ensures Full(d, s.maxMsgs) <==> s.lists.free == []
  {
    BusyHolds(s);
    hide Busy, Holders, RolesOf;
  }

  lemma TrySendAllowed(s: Mq, d: Deque, t: Tid, buf: Message, wait: bool)
    requires ItemsAre(s.lists.queue, s.body, d.items) && Conserved(s) && d.role == RolesOf(s.pc)
    ensures Ends(Seen(TrySend(s, t, buf, wait).pc[t]), Full(d, s.maxMsgs), wait)
  {
    FullWhen(s, d);
    hide ItemsAre, Full, RolesOf, Suspend;
  }

  lemma TryRecvAllowed(s: Mq, d: Deque, t: Tid, size: nat, wait: bool)
    requires ItemsAre(s.lists.queue, s.body, d.items)
    ensures Ends(Seen(TryRecv(s, t, size, wait).pc[t]), d.items == [], wait)
  {
    hide Suspend;
  }

  lemma WakesHead(d: Deque, pc: map<Tid, Pc>, list: seq<Tid>, r: Role)
    requires d.role == RolesOf(pc) && forall t :: t in list <==> t in pc && RoleOf(pc[t]) == r
    ensures Wakes(d, r, if list == [] then {} else {list[0]})
  {
    if list != [] { assert list[0] in list; }
  }

  /** The deque can take each step.  A sender gets a place exactly when its message fits and a
      place is left, and sleeps exactly when none is left and it waits; a receiver gets the front
      message exactly when there is one, and sleeps exactly when there is none and it waits; it
      delivers the bytes of the message it popped; and whoever puts a message in or takes one out
      wakes one thread of the other side if one sleeps. */
  lemma StepAllowed(s: Mq, d: Deque, e: Event)
    requires Can(s, e) && Related(s, d) && Inv(s) && d.role == RolesOf(s.pc)
    ensures Allowed(d, Label(s, e), s.msgSize, s.maxMsgs)
  {
    hide Partition, Waits, NoLostWakeup, Drain, Ends, Full, Wakes, Seen, TrySend, TryRecv, Linked, Freed, WakeReceiver, WakeSender, Queued, ItemsAre, Risen, Conserved;
    RelatedItems(s, d);
    match e
    case SendCall(t, buf, wait) => OfferAllowed(s, d, t, buf, wait);
    case UrgentCall(t, buf) => UrgentAllowed(s, d, t, buf);
    case RecvCall(t, size, wait) => TryRecvAllowed(s, d, t, size, wait);
    case RecvAgain(t, wait) => AskedBefore(s, d, t); TryRecvAllowed(s, d, t, s.pc[t].size, wait);
    case SendAgain(t, wait) => WaitingFits(s, d, t); TrySendAllowed(s, d, t, s.pc[t].buf, wait);
    case Link(t) => LinkWakes(s, d, t); LinkAllowed(s, d, t, Risen(s.pc, Next(s, e).pc));
    case Finish(t) => FinishWakes(s, d, t); FinishAllowed(s, d, t, Risen(s.pc, Next(s, e).pc));
    case _ =>
  }

  lemma LinkWakes(s: Mq, d: Deque, t: Tid)
    requires Can(s, Link(t)) && Waits(s.pc, s.recvWait, s.sendWait) && d.role == RolesOf(s.pc)
    ensures Wakes(d, WaitsToReceive, Risen(s.pc, Next(s, Link(t)).pc))
  {
    LinkRoles(s, t);
    WakesHead(d, s.pc, s.recvWait, WaitsToReceive);
  }

  lemma FinishWakes(s: Mq, d: Deque, t: Tid)
    requires Can(s, Finish(t)) && Waits(s.pc, s.recvWait, s.sendWait) && d.role == RolesOf(s.pc)
    ensures Wakes(d, WaitsToSend, Risen(s.pc, Next(s, Finish(t)).pc))
  {
    FinishRoles(s, t);
    WakesHead(d, s.pc, s.sendWait, WaitsToSend);
  }

  lemma RelatedItems(s: Mq, d: Deque)
    requires Related(s, d)
    ensures ItemsAre(s.lists.queue, s.body, d.items)
  {
  }

  lemma OfferAllowed(s: Mq, d: Deque, t: Tid, buf: Message, wait: bool)
    requires Can(s, SendCall(t, buf, wait)) && ItemsAre(s.lists.queue, s.body, d.items) && Conserved(s) && d.role == RolesOf(s.pc)
    ensures Allowed(d, Label(s, SendCall(t, buf, wait)), s.msgSize, s.maxMsgs)
  {
    TrySendAllowed(s, d, t, buf, wait);
    hide ItemsAre, Full, TrySend, Conserved;
  }

  lemma UrgentAllowed(s: Mq, d: Deque, t: Tid, buf: Message)
    requires Can(s, UrgentCall(t, buf)) && ItemsAre(s.lists.queue, s.body, d.items) && Conserved(s) && d.role == RolesOf(s.pc)
    ensures Allowed(d, Label(s, UrgentCall(t, buf)), s.msgSize, s.maxMsgs)
  {
    FullWhen(s, d);
    hide ItemsAre, Full, Conserved;
  }

  lemma Standing(s: Mq, d: Deque, t: Tid)
    requires Related(s, d) && t in s.pc && d.role == RolesOf(s.pc)
    ensures Stands(d, t, RoleOf(s.pc[t]))
    ensures s.pc[t].CopyIn? ==> t in d.offers && |d.offers[t].m| <= s.msgSize
    ensures s.pc[t].CopyOut? && |s.pc[t].out| == s.pc[t].size
            ==> t in d.taken && t in d.asked && Receives(d.taken[t], d.asked[t], s.msgSize, s.pc[t].out)
  {
    assert Copying(s.pc[t], t, s.body, d, s.msgSize);
    if s.pc[t].CopyOut? { Delivered(s.pc[t].out, d.taken[t], s.body[s.pc[t].node]); }
  }

  lemma LinkAllowed(s: Mq, d: Deque, t: Tid, woken: set<Tid>)
    requires Can(s, Link(t)) && Related(s, d) && Conserved(s) && d.role == RolesOf(s.pc) && Wakes(d, WaitsToReceive, woken)
    ensures Allowed(d, Enqueues(t, woken), s.msgSize, s.maxMsgs)
  {
    Standing(s, d, t);
    RelatedItems(s, d);
    BelowMax(s, t);
    hide Related, Wakes, Conserved, RolesOf, Stands;
  }

  /** The thread's own place is not among the queued ones. */
  lemma BelowMax(s: Mq, t: Tid)
    requires Conserved(s) && t in s.pc && Held(s.pc[t]) >= 0
    ensures |s.lists.queue| < s.maxMsgs
  {
    assert t in Holders(s.pc) by { InHolders(s.pc, t); }
  }

  lemma FinishAllowed(s: Mq, d: Deque, t: Tid, woken: set<Tid>)
    requires Can(s, Finish(t)) && Related(s, d) && d.role == RolesOf(s.pc) && Wakes(d, WaitsToSend, woken)
    ensures Allowed(d, Returns(t, s.pc[t].out, woken), s.msgSize, s.maxMsgs)
  {
    Standing(s, d, t);
    hide Related, Wakes, RolesOf, Stands, Receives;
  }

  lemma InHolders(pc: map<Tid, Pc>, t: Tid)
    requires t in pc && Held(pc[t]) >= 0
    ensures t in Holders(pc)
  {
  }

  lemma Delivered(out: Message, m: Message, b: Message)
    requires Prefix(m, b) && |out| <= |b| && out == b[..|out|]
    ensures forall i | 0 <= i < |m| && i < |out| :: out[i] == m[i]
  {
    forall i | 0 <= i < |m| && i < |out| ensures out[i] == m[i] {
      assert b[..|m|][i] == b[i];
    }
  }

  function Labels(s: Mq, es: seq<Event>): seq<Action>
    requires Runs(s, es)
    decreases |es|
  {
    if es == [] then [] else [Label(s, es[0])] + Labels(Next(s, es[0]), es[1..])
  }

  /** A run of the deque. */
  predicate DequeRuns(d: Deque, acts: seq<Action>, msgSize: nat, maxMsgs: nat)
    decreases |acts|
  {
    acts == [] || (Allowed(d, acts[0], msgSize, maxMsgs) && DequeRuns(Apply(d, acts[0]), acts[1..], msgSize, maxMsgs))
  }

  lemma {:induction false} RunRefines(s: Mq, d: Deque, es: seq<Event>)
    requires Inv(s) && Related(s, d) && Runs(s, es) && d.role == RolesOf(s.pc)
    ensures DequeRuns(d, Labels(s, es), s.msgSize, s.maxMsgs)
    ensures exists f :: Related(After(s, es), f)
    decreases |es|
  {
    if es == [] {
      assert Related(After(s, es), d);
    } else {
      hide Next, Can, Inv, Related, Label, Allowed, Effect, Roles, RolesOf, Waits;
      StepAllowed(s, d, es[0]);
      StepRefines(s, d, es[0]);
      RolesFollow(s, d, es[0]) by { WaitsHold(s); }
      RolesIgnored(Next(s, es[0]), Effect(d, Label(s, es[0])), Roles(d, Label(s, es[0])));
      AnyInterleaving(s, [es[0]]) by { assert Runs(Next(s, es[0]), []); }
      assert After(s, [es[0]]) == Next(s, es[0]) by { assert After(Next(s, es[0]), []) == Next(s, es[0]); }
      SameSize(s, es[0]);
      var rest := Labels(Next(s, es[0]), es[1..]);
      RunRefines(Next(s, es[0]), Apply(d, Label(s, es[0])), es[1..]);
      assert Labels(s, es)[1..] == rest;
      var f :| Related(After(Next(s, es[0]), es[1..]), f);
      assert Related(After(s, es), f);
    }
  }

  lemma WaitsHold(s: Mq)
    requires Inv(s)
    ensures Waits(s.pc, s.recvWait, s.sendWait)
  {
  }

  /** The deque before the first call. */
  function Empty(threads: set<Tid>): Deque {
    Deque([], map[], map[], map[], map t | t in threads :: Outside)
  }

  /** Over every interleaving, a copy that has bytes left finds them inside its node's body. */
  lemma NoCopyLeavesItsNode(msgSize: nat, maxMsgs: nat, flag: Flag, prio: map<Tid, int>, threads: set<Tid>, es: seq<Event>, t: Tid)
    requires Runs(Init(msgSize, maxMsgs, flag, prio, threads), es)
    ensures var r := After(Init(msgSize, maxMsgs, flag, prio, threads), es);
            t in r.pc ==>
              && (r.pc[t].CopyIn? && r.pc[t].done < |r.pc[t].buf| ==> Can(r, CopyByteIn(t)))
              && (r.pc[t].CopyOut? && |r.pc[t].out| < r.pc[t].size ==> Can(r, CopyByteOut(t)))
  {
    var s := Init(msgSize, maxMsgs, flag, prio, threads);
    var d := Empty(threads);
    InitInv(msgSize, maxMsgs, flag, prio, threads);
    assert Related(s, d) && RolesOf(s.pc) == d.role;
    RunRefines(s, d, es);
    var r := After(s, es);
    var f :| Related(r, f);
    if t in r.pc { CopiesStayInside(r, f, t); }
  }

  /** Every interleaving of senders, urgent senders, receivers, timeouts and resets, from
      initialisation on, behaves as the deque. */
  lemma QueueIsDeque(msgSize: nat, maxMsgs: nat, flag: Flag, prio: map<Tid, int>, threads: set<Tid>, es: seq<Event>)
    requires Runs(Init(msgSize, maxMsgs, flag, prio, threads), es)
    ensures DequeRuns(Empty(threads), Labels(Init(msgSize, maxMsgs, flag, prio, threads), es), msgSize, maxMsgs)
  {
    var s := Init(msgSize, maxMsgs, flag, prio, threads);
    InitInv(msgSize, maxMsgs, flag, prio, threads);
    assert Related(s, Empty(threads));
    assert RolesOf(s.pc) == Empty(threads).role;
    RunRefines(s, Empty(threads), es);
  }
}
