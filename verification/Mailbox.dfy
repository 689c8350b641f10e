/** The mailbox: a ring of message words with waiting receivers and senders. */
module MailboxModel {
  import opened Sequences
  import opened WaitList
  import opened Sleepers

  /** The words in the mailbox, oldest first, and the two wait lists. */
  datatype Box = Box(
    size: nat, flag: Flag, prio: map<Tid, int>, contents: seq<int>, receivers: seq<Tid>, senders: seq<Tid>)

  datatype Sent = Sent(box: Box, ok: bool, slept: bool)
  datatype Received = Received(box: Box, got: seq<int>, slept: bool)

  /** One pass of the loop of rt_mb_send_wait. */
  function SendPass(b: Box, t: Tid, value: int, wait: bool): Sent {
    if |b.contents| >= b.size then
      if !wait then Sent(b, false, false)
      else Sent(b.(senders := Suspend(b.senders, t, b.flag, b.prio)), false, true)
    else Sent(b.(contents := b.contents + [value], receivers := RestOf(b.receivers)), true, false)
  }

  /** One pass of the loop of rt_mb_recv; `got` holds the word received, if any. */
  function RecvPass(b: Box, t: Tid, wait: bool): Received {
    if b.contents == [] then
      if !wait then Received(b, [], false)
      else Received(b.(receivers := Suspend(b.receivers, t, b.flag, b.prio)), [], true)
    else Received(b.(contents := b.contents[1..], senders := RestOf(b.senders)), [b.contents[0]], false)
  }

  // ------------------------------------------------------------------ the protocol

  /** `offered` is the word a sending thread passed to its call. */
  datatype Mailbox = Mailbox(box: Box, recv: Phases, send: Phases, offered: map<Tid, int>)

  /** A thread starts a call, or a woken one goes round its loop again. */
  datatype Event =
    | SendCall(t: Tid, value: int, wait: bool)
    | SendAgain(t: Tid, wait: bool)
    | Recv(t: Tid, wait: bool)
    | Timeout(t: Tid)
    | Reset

  function Init(size: nat, flag: Flag, prio: map<Tid, int>): Mailbox {
    Mailbox(Box(size, flag, prio, [], [], []), map[], map[], map[])
  }

  predicate Free(m: Mailbox, t: Tid) {
    PhaseOf(m.recv, t).Awake? && PhaseOf(m.send, t).Awake?
  }

  predicate Can(m: Mailbox, e: Event) {
    match e
    case SendCall(t, _, _) => Free(m, t)
    case SendAgain(t, _) => PhaseOf(m.send, t).Woken? && t in m.offered
    case Recv(t, _) => Free(m, t) || PhaseOf(m.recv, t).Woken?
    case Timeout(t) => PhaseOf(m.recv, t).Asleep? || PhaseOf(m.send, t).Asleep?
    case Reset => true
  }

  function After1(p: Phases, t: Tid, slept: bool): Phases {
    p[t := if slept then Asleep else Awake]
  }

  function SendStep(m: Mailbox, t: Tid, value: int, wait: bool): Mailbox {
    var r := SendPass(m.box, t, value, wait);
    m.(box := r.box, send := After1(m.send, t, r.slept),
       recv := if r.ok then WakeFirst(m.box.receivers, m.recv) else m.recv)
  }

  function RecvStep(m: Mailbox, t: Tid, wait: bool): Mailbox {
    var r := RecvPass(m.box, t, wait);
    m.(box := r.box, recv := After1(m.recv, t, r.slept),
       send := if r.got != [] then WakeFirst(m.box.senders, m.send) else m.send)
  }

  function Next(m: Mailbox, e: Event): Mailbox
    requires Can(m, e)
  {
    match e
    case SendCall(t, value, wait) => SendStep(m.(offered := m.offered[t := value]), t, value, wait)
    case SendAgain(t, wait) => SendStep(m, t, m.offered[t], wait)
    case Recv(t, wait) => RecvStep(m, t, wait)
    case Timeout(t) =>
      if PhaseOf(m.recv, t).Asleep? then
        m.(box := m.box.(receivers := Without(m.box.receivers, t)), recv := m.recv[t := Awake])
      else
        m.(box := m.box.(senders := Without(m.box.senders, t)), send := m.send[t := Awake])
    case Reset => m.(box := m.box.(contents := [], receivers := [], senders := []), recv := LetGo(m.recv), send := LetGo(m.send))
  }

  ghost predicate Consistent(m: Mailbox) {
    && Agree(m.box.receivers, m.recv) && Agree(m.box.senders, m.send)
    && |m.box.contents| <= m.box.size
  }

  /** While a receiver sleeps, every word in the box is matched by a receiver that was woken and
      has still to try again; likewise senders and free slots. */
  ghost predicate NoLostWakeup(m: Mailbox) {
    && (m.box.receivers != [] ==> |m.box.contents| <= |WokenSet(m.recv)|)
    && (m.box.senders != [] ==> m.box.size - |m.box.contents| <= |WokenSet(m.send)|)
  }

  lemma SendKeeps(m: Mailbox, t: Tid, value: int, wait: bool)
    requires Consistent(m) && NoLostWakeup(m) && !PhaseOf(m.send, t).Asleep?
    ensures Consistent(SendStep(m, t, value, wait)) && NoLostWakeup(SendStep(m, t, value, wait))
  {
    var list := m.box.senders;
    assert t !in list;
    SuspendMembers(list, t, m.box.flag, m.box.prio);
    SleepAgree(list, Suspend(list, t, m.box.flag, m.box.prio), m.send, t);
    AwakeAgree(list, m.send, t);
    hide Agree, Suspend, WokenSet, WakeFirst;
    WakeAgree(m.box.receivers, m.recv);
    WokenCount(m.send, t, if SendPass(m.box, t, value, wait).slept then Asleep else Awake);
  }

  lemma RecvKeeps(m: Mailbox, t: Tid, wait: bool)
    requires Consistent(m) && NoLostWakeup(m) && !PhaseOf(m.recv, t).Asleep?
    ensures Consistent(RecvStep(m, t, wait)) && NoLostWakeup(RecvStep(m, t, wait))
  {
    var list := m.box.receivers;
    assert t !in list;
    SuspendMembers(list, t, m.box.flag, m.box.prio);
    SleepAgree(list, Suspend(list, t, m.box.flag, m.box.prio), m.recv, t);
    AwakeAgree(list, m.recv, t);
    hide Agree, Suspend, WokenSet, WakeFirst;
    WakeAgree(m.box.senders, m.send);
    WokenCount(m.recv, t, if RecvPass(m.box, t, wait).slept then Asleep else Awake);
  }

  lemma TimeoutKeeps(m: Mailbox, t: Tid)
    requires Consistent(m) && NoLostWakeup(m) && Can(m, Timeout(t))
    ensures Consistent(Next(m, Timeout(t))) && NoLostWakeup(Next(m, Timeout(t)))
  {
    hide Without, WokenSet;
    if PhaseOf(m.recv, t).Asleep? {
      TimeoutAgree(m.box.receivers, m.recv, t);
    } else {
      TimeoutAgree(m.box.senders, m.send, t);
    }
  }

  lemma StepKeeps(m: Mailbox, e: Event)
    requires Consistent(m) && NoLostWakeup(m) && Can(m, e)
    ensures Consistent(Next(m, e)) && NoLostWakeup(Next(m, e))
  {
    match e
    case SendCall(t, value, wait) =>
      hide SendStep;
      SendKeeps(m.(offered := m.offered[t := value]), t, value, wait);
    case SendAgain(t, wait) => hide SendStep; SendKeeps(m, t, m.offered[t], wait);
    case Recv(t, wait) => hide RecvStep; RecvKeeps(m, t, wait);
    case Timeout(t) => TimeoutKeeps(m, t);
    case Reset => LetGoAgree(m.box.receivers, m.recv); LetGoAgree(m.box.senders, m.send);
  }

  /** With priority queueing both wait lists have their most urgent thread in front. */
  ghost predicate Queued(b: Box) {
    b.flag.Prio? ==> Ordered(b.receivers, b.prio) && Ordered(b.senders, b.prio)
  }

  lemma QueuedLists(b: Box, t: Tid)
    requires Queued(b) && b.flag.Prio?
    ensures Ordered(Suspend(b.receivers, t, b.flag, b.prio), b.prio) && Ordered(Suspend(b.senders, t, b.flag, b.prio), b.prio)
    ensures Ordered(Without(b.receivers, t), b.prio) && Ordered(Without(b.senders, t), b.prio)
    ensures Ordered(RestOf(b.receivers), b.prio) && Ordered(RestOf(b.senders), b.prio)
  {
    SuspendOrdered(b.receivers, t, b.prio);
    SuspendOrdered(b.senders, t, b.prio);
    WithoutOrdered(b.receivers, t, b.prio);
    WithoutOrdered(b.senders, t, b.prio);
    hide Suspend, Without;
  }

  lemma QueuedKept(m: Mailbox, e: Event)
    requires Queued(m.box) && Can(m, e)
    ensures Queued(Next(m, e).box) && Next(m, e).box.flag == m.box.flag && Next(m, e).box.prio == m.box.prio
  {
    hide Suspend, Without, RestOf, Ordered, WakeFirst, LetGo, After1;
    if m.box.flag.Prio? && !e.Reset? { QueuedLists(m.box, e.t); }
    NobodyOrdered(m.box.prio);
  }

  /** A woken sender of a run always has a word to send. */
  ghost predicate OffersKnown(m: Mailbox) {
    forall t | t in m.send && !m.send[t].Awake? :: t in m.offered
  }

  lemma OffersKept(m: Mailbox, e: Event)
    requires Consistent(m) && OffersKnown(m) && Can(m, e)
    ensures OffersKnown(Next(m, e))
  {
    if m.box.senders != [] { assert m.box.senders[0] in m.box.senders; }
    hide Suspend, Without, Agree;
  }

  // ------------------------------------------------------------------ answers

  /** The word a sending step is about. */
  function WordOf(m: Mailbox, e: Event): int
    requires Can(m, e) && (e.SendCall? || e.SendAgain?)
  {
    if e.SendCall? then e.value else m.offered[e.t]
  }

  /** What a pass of the send loop answers: the word enters the box exactly when there is room, and
      then the first waiting receiver is woken; without room the caller sleeps exactly when it
      waits, in its place of the senders. */
  lemma SendAnswers(m: Mailbox, e: Event, u: Tid)
    requires Consistent(m) && Can(m, e) && (e.SendCall? || e.SendAgain?)
    ensures var r, full := Next(m, e), |m.box.contents| == m.box.size;
            && r.box.contents == (if full then m.box.contents else m.box.contents + [WordOf(m, e)])
            && SentBy(m, e) == (if full then [] else [WordOf(m, e)])
            && PhaseOf(r.send, u) == (if u != e.t then PhaseOf(m.send, u) else if full && e.wait then Asleep else Awake)
            && (if full && e.wait then Enters(m.box.senders, r.box.senders, e.t, m.box.flag, m.box.prio) else r.box.senders == m.box.senders)
            && (if full || m.box.receivers == [] then r.box.receivers == m.box.receivers && r.recv == m.recv
                else m.box.receivers == [m.box.receivers[0]] + r.box.receivers
                     && PhaseOf(r.recv, u) == if u == m.box.receivers[0] then Woken else PhaseOf(m.recv, u))
  {
    SuspendEnters(m.box.senders, Next(m, e).box.senders, e.t, m.box.flag, m.box.prio);
    hide Agree, Suspend, Enters;
  }

  /** What a pass of the receive loop answers: the oldest word, if there is one, and then the first
      waiting sender is woken; from an empty box the caller sleeps exactly when it waits. */
  lemma RecvAnswers(m: Mailbox, e: Event, u: Tid)
    requires Consistent(m) && Can(m, e) && e.Recv?
    ensures var r, empty := Next(m, e), m.box.contents == [];
            && m.box.contents == ReceivedBy(m, e) + r.box.contents && |ReceivedBy(m, e)| == (if empty then 0 else 1)
            && PhaseOf(r.recv, u) == (if u != e.t then PhaseOf(m.recv, u) else if empty && e.wait then Asleep else Awake)
            && (if empty && e.wait then Enters(m.box.receivers, r.box.receivers, e.t, m.box.flag, m.box.prio) else r.box.receivers == m.box.receivers)
            && (if empty || m.box.senders == [] then r.box.senders == m.box.senders && r.send == m.send
                else m.box.senders == [m.box.senders[0]] + r.box.senders
                     && PhaseOf(r.send, u) == if u == m.box.senders[0] then Woken else PhaseOf(m.send, u))
  {
    SuspendEnters(m.box.receivers, Next(m, e).box.receivers, e.t, m.box.flag, m.box.prio);
    hide Agree, Suspend, Enters;
  }

  lemma SleeperLeaves(list: seq<Tid>, ph: Phases, t: Tid, u: Tid)
    requires Agree(list, ph) && PhaseOf(ph, t).Asleep?
    ensures Leaves(list, Without(list, t), t)
    ensures PhaseOf(ph[t := Awake], u) == if u == t then Awake else PhaseOf(ph, u)
  {
    WithoutLeaves(list, t);
    hide Without, Leaves;
  }

  /** A timeout lets one sleeper go and does nothing else. */
  lemma TimeoutAnswers(m: Mailbox, t: Tid, u: Tid)
    requires Consistent(m) && Can(m, Timeout(t))
    ensures var r := Next(m, Timeout(t));
            && r.box.contents == m.box.contents && r.offered == m.offered
            && (if PhaseOf(m.recv, t).Asleep? then
                  && Leaves(m.box.receivers, r.box.receivers, t) && r.box.senders == m.box.senders && r.send == m.send
                  && PhaseOf(r.recv, u) == if u == t then Awake else PhaseOf(m.recv, u)
                else
                  && Leaves(m.box.senders, r.box.senders, t) && r.box.receivers == m.box.receivers && r.recv == m.recv
                  && PhaseOf(r.send, u) == if u == t then Awake else PhaseOf(m.send, u))
  {
    if PhaseOf(m.recv, t).Asleep? {
      SleeperLeaves(m.box.receivers, m.recv, t, u);
    } else {
      SleeperLeaves(m.box.senders, m.send, t, u);
    }
    hide Agree, Without, Leaves, PhaseOf;
  }

  /** A reset empties the box and lets every sleeper go, and only the sleepers. */
  lemma ResetAnswers(m: Mailbox, u: Tid)
    ensures var r := Next(m, Reset);
            && r.box.contents == [] && r.box.receivers == [] && r.box.senders == []
            && PhaseOf(r.recv, u) == (if PhaseOf(m.recv, u).Asleep? then Awake else PhaseOf(m.recv, u))
            && PhaseOf(r.send, u) == (if PhaseOf(m.send, u).Asleep? then Awake else PhaseOf(m.send, u))
  {
  }

  // ------------------------------------------------------------------ whole runs

  predicate Runs(m: Mailbox, es: seq<Event>)
    decreases |es|
  {
    es == [] || (Can(m, es[0]) && Runs(Next(m, es[0]), es[1..]))
  }

  function After(m: Mailbox, es: seq<Event>): Mailbox
    requires Runs(m, es)
    decreases |es|
  {
    if es == [] then m else After(Next(m, es[0]), es[1..])
  }

  ghost predicate Inv(m: Mailbox) {
    Consistent(m) && NoLostWakeup(m) && Queued(m.box) && OffersKnown(m)
  }

  lemma {:induction false} AnyRun(m: Mailbox, es: seq<Event>)
    requires Inv(m) && Runs(m, es)
    ensures Inv(After(m, es)) && After(m, es).box.flag == m.box.flag && After(m, es).box.prio == m.box.prio
    decreases |es|
  {
    if es != [] {
      hide Consistent, NoLostWakeup, Queued, OffersKnown, Next, Can;
      StepKeeps(m, es[0]);
      QueuedKept(m, es[0]);
      OffersKept(m, es[0]);
      AnyRun(Next(m, es[0]), es[1..]);
    }
  }

  /** From initialisation on, once the woken threads have run nobody sleeps beside a word to
      receive or a slot to fill; a woken sender can always go round its loop again; and with
      priority queueing the thread woken first is no less urgent than the others. */
  lemma EveryRunFromInit(size: nat, flag: Flag, prio: map<Tid, int>, es: seq<Event>)
    requires Runs(Init(size, flag, prio), es)
    ensures var m := After(Init(size, flag, prio), es);
            && |m.box.contents| <= size
            && (WokenSet(m.recv) == {} && m.box.contents != [] ==> m.box.receivers == [])
            && (WokenSet(m.send) == {} && |m.box.contents| < size ==> m.box.senders == [])
            && (forall t | PhaseOf(m.send, t).Woken? :: Can(m, SendAgain(t, true)))
            && (flag.Prio? ==> forall k: nat | k < |m.box.receivers| :: Pri(prio, m.box.receivers[0]) <= Pri(prio, m.box.receivers[k]))
            && (flag.Prio? ==> forall k: nat | k < |m.box.senders| :: Pri(prio, m.box.senders[0]) <= Pri(prio, m.box.senders[k]))
  {
    assert Inv(Init(size, flag, prio));
    AnyRun(Init(size, flag, prio), es);
    SizeKept(Init(size, flag, prio), es);
  }

  lemma {:induction false} SizeKept(m: Mailbox, es: seq<Event>)
    requires Runs(m, es)
    ensures After(m, es).box.size == m.box.size
    decreases |es|
  {
    if es != [] { SizeKept(Next(m, es[0]), es[1..]); }
  }

  /** The words passed to successful sends and the words handed to receivers by one step. */
  function SentBy(m: Mailbox, e: Event): seq<int>
    requires Can(m, e)
  {
    match e
    case SendCall(t, value, wait) => if SendPass(m.box, t, value, wait).ok then [value] else []
    case SendAgain(t, wait) => if SendPass(m.box, t, m.offered[t], wait).ok then [m.offered[t]] else []
    case _ => []
  }

  function ReceivedBy(m: Mailbox, e: Event): seq<int>
    requires Can(m, e)
  {
    match e
    case Recv(t, wait) => RecvPass(m.box, t, wait).got
    case _ => []
  }

  function AllSent(m: Mailbox, es: seq<Event>): seq<int>
    requires Runs(m, es)
    decreases |es|
  {
    if es == [] then [] else SentBy(m, es[0]) + AllSent(Next(m, es[0]), es[1..])
  }

  function AllReceived(m: Mailbox, es: seq<Event>): seq<int>
    requires Runs(m, es)
    decreases |es|
  {
    if es == [] then [] else ReceivedBy(m, es[0]) + AllReceived(Next(m, es[0]), es[1..])
  }

  /** A word that left the box: a receiver got it, or a reset dropped it. */
  datatype Left = Left(word: int, received: bool)

  function LeftWith(words: seq<int>, received: bool): (l: seq<Left>)
    ensures |l| == |words| && forall i | 0 <= i < |l| :: l[i] == Left(words[i], received)
  {
    seq(|words|, i requires 0 <= i < |words| => Left(words[i], received))
  }

  function LeftBy(m: Mailbox, e: Event): seq<Left>
    requires Can(m, e)
  {
    if e.Reset? then LeftWith(m.box.contents, false) else LeftWith(ReceivedBy(m, e), true)
  }

  function AllLeft(m: Mailbox, es: seq<Event>): seq<Left>
    requires Runs(m, es)
    decreases |es|
  {
    if es == [] then [] else LeftBy(m, es[0]) + AllLeft(Next(m, es[0]), es[1..])
  }

  function Words(l: seq<Left>): (w: seq<int>)
    ensures |w| == |l| && forall i | 0 <= i < |w| :: w[i] == l[i].word
  {
    seq(|l|, i requires 0 <= i < |l| => l[i].word)
  }

  function ReceivedOf(l: seq<Left>): seq<int> {
    if l == [] then [] else First(l[0]) + ReceivedOf(l[1..])
  }

  /** First in, first out over every interleaving, resets included: the words that left the box,
      followed by those still in it, are those that were in the box and were sent, in the same
      order; and what receivers got is the words that left but were not dropped by a reset. */
  lemma {:induction false} FifoWithResets(m: Mailbox, es: seq<Event>)
    requires Runs(m, es)
    ensures Words(AllLeft(m, es)) + After(m, es).box.contents == m.box.contents + AllSent(m, es)
    ensures ReceivedOf(AllLeft(m, es)) == AllReceived(m, es)
    decreases |es|
  {
    if es != [] {
      var n := Next(m, es[0]);
      StepLeaves(m, es[0]);
      hide Next, Can, SentBy, ReceivedBy, LeftBy, Words, ReceivedOf;
      FifoWithResets(n, es[1..]);
      WordsOfBoth(LeftBy(m, es[0]), AllLeft(n, es[1..]));
      ReceivedOfBoth(LeftBy(m, es[0]), AllLeft(n, es[1..]));
      Glue(Words(LeftBy(m, es[0])), Words(AllLeft(n, es[1..])), After(n, es[1..]).box.contents, n.box.contents,
           AllSent(n, es[1..]), m.box.contents, SentBy(m, es[0]));
    } else {
      NothingLeft();
      assert Words(AllLeft(m, es)) + m.box.contents == m.box.contents + AllSent(m, es);
    }
  }

  lemma NothingLeft()
    ensures Words([]) == [] && ReceivedOf([]) == []
  {
  }

  lemma WordsOfBoth(a: seq<Left>, b: seq<Left>)
    ensures Words(a + b) == Words(a) + Words(b)
  {
  }

  lemma {:induction false} ReceivedOfBoth(a: seq<Left>, b: seq<Left>)
    ensures ReceivedOf(a + b) == ReceivedOf(a) + ReceivedOf(b)
  {
    hide ReceivedOf;
    if a == [] {
      NothingLeft();
      assert a + b == b;
    } else {
      FirstLeft(a);
      FirstLeft(a + b);
      assert (a + b)[1..] == a[1..] + b;
      ReceivedOfBoth(a[1..], b);
      assert First(a[0]) + ReceivedOf(a[1..]) + ReceivedOf(b) == First(a[0]) + (ReceivedOf(a[1..]) + ReceivedOf(b));
    }
  }

  function First(l: Left): seq<int> {
    if l.received then [l.word] else []
  }

  lemma FirstLeft(l: seq<Left>)
    requires l != []
    ensures ReceivedOf(l) == First(l[0]) + ReceivedOf(l[1..])
  {
  }

  lemma {:induction false} ReceivedOfWords(words: seq<int>, received: bool)
    ensures ReceivedOf(LeftWith(words, received)) == if received then words else []
  {
    if words != [] {
      assert LeftWith(words, received)[1..] == LeftWith(words[1..], received);
      ReceivedOfWords(words[1..], received);
    }
  }

  lemma StepLeaves(m: Mailbox, e: Event)
    requires Can(m, e)
    ensures Words(LeftBy(m, e)) + Next(m, e).box.contents == m.box.contents + SentBy(m, e)
    ensures ReceivedOf(LeftBy(m, e)) == ReceivedBy(m, e)
  {
    hide Suspend, Without;
    ReceivedOfWords(m.box.contents, false);
    ReceivedOfWords(ReceivedBy(m, e), true);
    if e.Reset? {
      assert Words(LeftBy(m, e)) == m.box.contents;
    } else {
      assert Words(LeftBy(m, e)) == ReceivedBy(m, e);
      StepFifo(m, e);
    }
  }

  /** First in, first out over every interleaving without a reset: what was received, followed by
      what is still in the box, is what was in the box and was sent, in the same order. */
  lemma {:induction false} FirstInFirstOut(m: Mailbox, es: seq<Event>)
    requires Runs(m, es) && Reset !in es
    ensures AllReceived(m, es) + After(m, es).box.contents == m.box.contents + AllSent(m, es)
    decreases |es|
  {
    if es != [] {
      var n := Next(m, es[0]);
      assert es[0] in es;
      assert ReceivedBy(m, es[0]) + n.box.contents == m.box.contents + SentBy(m, es[0]) by { StepFifo(m, es[0]); }
      hide Next, Can, SentBy, ReceivedBy;
      FirstInFirstOut(n, es[1..]);
      Glue(ReceivedBy(m, es[0]), AllReceived(n, es[1..]), After(n, es[1..]).box.contents, n.box.contents,
           AllSent(n, es[1..]), m.box.contents, SentBy(m, es[0]));
    }
  }

  lemma Glue(r: seq<int>, rs: seq<int>, last: seq<int>, mid: seq<int>, ss: seq<int>, first: seq<int>, s: seq<int>)
    requires rs + last == mid + ss && r + mid == first + s
    ensures (r + rs) + last == first + (s + ss)
  {
    assert (r + rs) + last == r + (rs + last);
    assert first + (s + ss) == (first + s) + ss;
    assert r + (mid + ss) == (r + mid) + ss;
  }

  lemma StepFifo(m: Mailbox, e: Event)
    requires Can(m, e) && !e.Reset?
    ensures ReceivedBy(m, e) + Next(m, e).box.contents == m.box.contents + SentBy(m, e)
  {
    hide Suspend, Without;
  }

  /** A thread that has to sleep sends, when it succeeds at last, the word it was called with. */
  lemma OfferKept(m: Mailbox, e: Event, t: Tid)
    requires Can(m, e) && !PhaseOf(m.send, t).Awake? && t in m.offered
    ensures t in Next(m, e).offered && Next(m, e).offered[t] == m.offered[t]
  {
    hide Suspend, Without;
  }
}

/** The mailbox object of the kernel: the words lie in a ring buffer. */
module MailboxObject {
  import opened WaitList
  import opened MailboxModel

  /** One place in a ring of n places, for offsets below 2n. */
  function Wrap(i: nat, n: nat): nat {
    if i >= n then i - n else i
  }

  /** The n words of the ring from place `out` on. */
  function Ring(pool: seq<int>, out: nat, n: nat): (s: seq<int>)
    requires n <= |pool| && (out < |pool| || out == 0)
    ensures |s| == n && forall i: nat | i < n :: s[i] == pool[Wrap(out + i, |pool|)]
  {
    seq(n, i requires 0 <= i < n => pool[Wrap(out + i, |pool|)])
  }

  lemma RingPut(pool: seq<int>, out: nat, n: nat, value: int)
    requires n < |pool| && out < |pool|
    ensures Ring(pool[Wrap(out + n, |pool|) := value], out, n + 1) == Ring(pool, out, n) + [value]
  {
  }

  lemma RingGet(pool: seq<int>, out: nat, n: nat)
    requires 0 < n <= |pool| && out < |pool|
    ensures pool[out] == Ring(pool, out, n)[0]
    ensures Ring(pool, Wrap(out + 1, |pool|), n - 1) == Ring(pool, out, n)[1..]
  {
    var r := Ring(pool, Wrap(out + 1, |pool|), n - 1);
    forall i: nat | i < n - 1 ensures r[i] == Ring(pool, out, n)[i + 1] {
      assert Wrap(Wrap(out + 1, |pool|) + i, |pool|) == Wrap(out + (i + 1), |pool|);
    }
  }

  lemma WrapIsModulo(i: nat, n: nat)
    requires 0 < n && i < 2 * n
    ensures Wrap(i, n) == i % n
  {
    if i >= n {
      var j := i - n;
      assert i == n * 1 + j;
    }
  }

  class KernelMailbox {
    const size: nat
    const flag: Flag
    const pool: array<int>
    var inOffset: nat
    var outOffset: nat
    var entry: nat
    const receivers: WaitQueue
    const senders: WaitQueue

    ghost predicate Valid()
      reads this
    {
      && pool.Length == size && receivers != senders
      && entry <= size
      && (outOffset < size || outOffset == 0)
      && inOffset == Wrap(outOffset + entry, size)
    }

    ghost function State(prio: map<Tid, int>): Box
      requires Valid()
      reads this, pool, receivers, senders
    {
      Box(size, flag, prio, Contents(), receivers.list, senders.list)
    }

    ghost function Contents(): (s: seq<int>)
      requires Valid()
      reads this, pool
      ensures |s| == entry
    {
      Ring(pool[..], outOffset, entry)
    }

    constructor (size: nat, flag: Flag)
      ensures Valid() && fresh(pool) && fresh(receivers) && fresh(senders)
      ensures forall prio :: State(prio) == Init(size, flag, prio).box
    {
      this.size := size;
      this.flag := flag;
      pool := new int[size](_ => 0);
      inOffset, outOffset, entry := 0, 0, 0;
      receivers := new WaitQueue();
      senders := new WaitQueue();
    }

    method Send(t: Tid, value: int, wait: bool, prio: map<Tid, int>) returns (ok: bool, slept: bool)
      requires Valid()
      modifies this, pool, receivers, senders
      ensures Valid()
      ensures Sent(State(prio), ok, slept) == SendPass(old(State(prio)), t, value, wait)
      ensures (ok <==> old(entry) < size) && (slept <==> old(entry) == size && wait)
      ensures Contents() == if ok then old(Contents()) + [value] else old(Contents())
      ensures if slept then Enters(old(senders.list), senders.list, t, flag, prio) else senders.list == old(senders.list)
    {
      hide Enters;
      if entry == size {
        if wait {
          senders.SuspendThread(t, flag, prio);
        }
        assert Contents() == old(Contents());
        return false, wait;
      }
      ghost var was, ring := Contents(), pool[..];
      RingPut(ring, outOffset, entry, value);
      pool[inOffset] := value;
      assert pool[..] == ring[inOffset := value];
      inOffset := inOffset + 1;
      if inOffset >= size {
        inOffset := 0;
      }
      entry := entry + 1;
      assert Contents() == was + [value];
      if receivers.list != [] {
        var _ := receivers.ResumeFirst();
      }
      assert Contents() == was + [value];
      return true, false;
    }

    method Receive(t: Tid, wait: bool, prio: map<Tid, int>) returns (got: seq<int>, slept: bool)
      requires Valid()
      modifies this, receivers, senders
      ensures Valid()
      ensures Received(State(prio), got, slept) == RecvPass(old(State(prio)), t, wait)
      ensures old(Contents()) == got + Contents() && |got| == if old(entry) > 0 then 1 else 0
      ensures slept <==> old(entry) == 0 && wait
      ensures if slept then Enters(old(receivers.list), receivers.list, t, flag, prio) else receivers.list == old(receivers.list)
    {
      hide Enters;
      if entry == 0 {
        if wait {
          receivers.SuspendThread(t, flag, prio);
        }
        assert Contents() == old(Contents());
        return [], wait;
      }
      ghost var was := Contents();
      RingGet(pool[..], outOffset, entry);
      var value := pool[outOffset];
      outOffset := outOffset + 1;
      if outOffset >= size {
        outOffset := 0;
      }
      entry := entry - 1;
      assert Contents() == was[1..];
      if senders.list != [] {
        var _ := senders.ResumeFirst();
      }
      assert Contents() == was[1..];
      return [value], false;
    }

    method Reset() returns (woken: seq<Tid>)
      requires Valid()
      modifies this, receivers, senders
      ensures Valid() && woken == old(receivers.list) + old(senders.list)
      ensures forall prio :: State(prio) == old(State(prio)).(contents := [], receivers := [], senders := [])
    {
      var a := receivers.ResumeAll();
      var b := senders.ResumeAll();
      woken := a + b;
      entry, inOffset, outOffset := 0, 0, 0;
    }

    /** The ring in the usual form. */
    lemma RingOffsets()
      requires Valid() && size > 0
      ensures inOffset == (outOffset + entry) % size
    {
      WrapIsModulo(outOffset + entry, size);
    }
  }
}
