/** The counting semaphore.  A release with waiters hands its unit to the first of them. */
module SemaphoreModel {
  import opened Sequences
  import opened WaitList

  datatype Semaphore = Semaphore(flag: Flag, prio: map<Tid, int>, value: nat, waiters: seq<Tid>)

  datatype Event = Take(t: Tid, wait: bool) | Release | Timeout(t: Tid) | Reset(value: nat)

  function Init(flag: Flag, prio: map<Tid, int>, value: nat): Semaphore {
    Semaphore(flag, prio, value, [])
  }

  const MAX_VALUE: nat := 0xFFFF

  /** A sleeping thread does not call; the 16-bit value must not overflow. */
  predicate Can(s: Semaphore, e: Event) {
    match e
    case Take(t, _) => t !in s.waiters
    case Release => s.value < MAX_VALUE || s.waiters != []
    case Timeout(t) => t in s.waiters
    case Reset(v) => true
  }

  function Next(s: Semaphore, e: Event): Semaphore {
    match e
    case Take(t, wait) =>
      if s.value > 0 then s.(value := s.value - 1)
      else if wait then s.(waiters := Suspend(s.waiters, t, s.flag, s.prio))
      else s
    case Release => if s.waiters != [] then s.(waiters := s.waiters[1..]) else s.(value := s.value + 1)
    case Timeout(t) => s.(waiters := Without(s.waiters, t))
    case Reset(v) => s.(waiters := [], value := v % (MAX_VALUE + 1))
  }

  /** Threads that return from a take with success because of this step. */
  function Granted(s: Semaphore, e: Event): seq<Tid> {
    match e
    case Take(t, _) => if s.value > 0 then [t] else []
    case Release => if s.waiters != [] then [s.waiters[0]] else []
    case _ => []
  }

  /** What a take answers: a unit if there is one; without one the caller sleeps exactly when it
      waits, in its place of the list. */
  lemma TakeAnswers(s: Semaphore, t: Tid, wait: bool)
    ensures var r, g := Next(s, Take(t, wait)), Granted(s, Take(t, wait));
            && (s.value > 0 ==> g == [t] && r.value + 1 == s.value && r.waiters == s.waiters)
            && (s.value == 0 ==> g == [] && r.value == 0)
            && (s.value == 0 && wait ==> Enters(s.waiters, r.waiters, t, s.flag, s.prio))
            && (s.value == 0 && !wait ==> r == s)
  {
    SuspendEnters(s.waiters, Next(s, Take(t, wait)).waiters, t, s.flag, s.prio);
    hide Suspend, Enters;
  }

  /** What a release answers: its unit goes to the first waiting thread, or else to the value; and
      what a reset does: it lets everybody go and keeps the low 16 bits of the new value. */
  lemma ReleaseAnswers(s: Semaphore, v: nat)
    ensures var r, g := Next(s, Release), Granted(s, Release);
            s.waiters == g + r.waiters && r.value + |g| == s.value + 1 && (g == [] <==> s.waiters == []) && |g| <= 1
    ensures var r := Next(s, Reset(v));
            r.waiters == [] && r.value < 0x1_0000 && (exists k: nat :: v == Units(k) + r.value) && Granted(s, Reset(v)) == []
  {
    assert v == Units(v / 0x1_0000) + v % 0x1_0000;
  }

  /** A timeout takes the thread off the list and does nothing else. */
  lemma TimeoutAnswers(s: Semaphore, t: Tid)
    requires t in s.waiters
    ensures var r := Next(s, Timeout(t)); Leaves(s.waiters, r.waiters, t) && r == s.(waiters := r.waiters)
    ensures Granted(s, Timeout(t)) == []
  {
    WithoutLeaves(s.waiters, t);
    hide Without;
  }

  function Units(k: nat): nat { k * 0x1_0000 }

  /** Nobody waits while a unit is available; with priority queueing the most urgent waits in front. */
  ghost predicate Inv(s: Semaphore) {
    && Distinct(s.waiters) && (s.value > 0 ==> s.waiters == []) && s.value <= MAX_VALUE
    && (s.flag.Prio? ==> Ordered(s.waiters, s.prio))
  }

  lemma StepKeeps(s: Semaphore, e: Event)
    requires Inv(s) && Can(s, e)
    ensures Inv(Next(s, e))
  {
    match e
    case Take(t, wait) =>
      SuspendMembers(s.waiters, t, s.flag, s.prio);
      if s.flag.Prio? { SuspendOrdered(s.waiters, t, s.prio); }
      hide Suspend, Ordered;
    case Timeout(t) =>
      WithoutMembers(s.waiters, t);
      if s.flag.Prio? { WithoutOrdered(s.waiters, t, s.prio); }
      hide Without, Ordered;
    case _ =>
  }

  predicate Runs(s: Semaphore, es: seq<Event>)
    decreases |es|
  {
    es == [] || (Can(s, es[0]) && Runs(Next(s, es[0]), es[1..]))
  }

  function After(s: Semaphore, es: seq<Event>): Semaphore
    decreases |es|
  {
    if es == [] then s else After(Next(s, es[0]), es[1..])
  }

  function Releases(es: seq<Event>): nat {
    if es == [] then 0 else Releases(es[1..]) + if es[0].Release? then 1 else 0
  }

  function Grants(s: Semaphore, es: seq<Event>): nat
    decreases |es|
  {
    if es == [] then 0 else |Granted(s, es[0])| + Grants(Next(s, es[0]), es[1..])
  }

  /** Over every run without a reset, immediate grants and hand-overs together never exceed the
      units there were and were released, and the value is exactly what remains. */
  lemma {:induction false} UnitsConserved(s: Semaphore, es: seq<Event>)
    requires Inv(s) && Runs(s, es) && forall e | e in es :: !e.Reset?
    ensures After(s, es).value + Grants(s, es) == s.value + Releases(es)
    ensures Inv(After(s, es))
    decreases |es|
  {
    if es != [] {
      assert es[0] in es;
      StepKeeps(s, es[0]);
      StepUnits(s, es[0]);
      hide Next, Can, Inv, Granted;
      UnitsConserved(Next(s, es[0]), es[1..]);
    }
  }

  lemma StepUnits(s: Semaphore, e: Event)
    requires !e.Reset?
    ensures Next(s, e).value + |Granted(s, e)| == s.value + if e.Release? then 1 else 0
  {
    hide Suspend, Without;
  }

  lemma {:induction false} AnyRun(s: Semaphore, es: seq<Event>)
    requires Inv(s) && Runs(s, es)
    ensures Inv(After(s, es)) && After(s, es).flag == s.flag && After(s, es).prio == s.prio
    decreases |es|
  {
    if es != [] {
      StepKeeps(s, es[0]);
      assert Next(s, es[0]).flag == s.flag && Next(s, es[0]).prio == s.prio;
      hide Next, Can, Inv;
      AnyRun(Next(s, es[0]), es[1..]);
    }
  }

  /** After every run from initialisation, resets included: a release serves the thread at the head
      of the list, which with priority queueing is no less urgent than any other waiting thread;
      and a thread that comes to wait then queues behind those of its own priority. */
  lemma ReleaseServesMostUrgent(flag: Flag, prio: map<Tid, int>, value: nat, es: seq<Event>, k: nat, t: Tid)
    requires value <= MAX_VALUE && Runs(Init(flag, prio, value), es)
    requires k < |After(Init(flag, prio, value), es).waiters|
    ensures var s := After(Init(flag, prio, value), es);
            && Granted(s, Release) == [s.waiters[0]] && s.waiters[0] !in Next(s, Release).waiters
            && (flag.Prio? ==> Pri(prio, s.waiters[0]) <= Pri(prio, s.waiters[k]))
            && (flag.Prio? && Pri(prio, t) == Pri(prio, s.waiters[k]) ==> k < Place(s.waiters, Pri(prio, t), flag, prio))
  {
    var s := After(Init(flag, prio, value), es);
    AnyRun(Init(flag, prio, value), es);
    if flag.Prio? {
      assert k == 0 || Pri(prio, s.waiters[0]) <= Pri(prio, s.waiters[k]);
      if Pri(prio, t) == Pri(prio, s.waiters[k]) { SuspendBehindEquals(s.waiters, t, prio, k); }
    }
  }
}

/** The semaphore object of the kernel. */
module SemaphoreObject {
  import opened WaitList
  import M = SemaphoreModel

  datatype Outcome = Done | Asleep | TimedOut

  class KernelSemaphore {
    const flag: Flag
    var value: nat
    const waiters: WaitQueue

    function State(prio: map<Tid, int>): M.Semaphore
      reads this, waiters
    {
      M.Semaphore(flag, prio, value, waiters.list)
    }

    constructor (flag: Flag, value: nat)
      ensures forall prio :: State(prio) == M.Init(flag, prio, value)
      ensures fresh(waiters)
    {
      this.flag := flag;
      this.value := value;
      waiters := new WaitQueue();
    }

    method Take(t: Tid, wait: bool, prio: map<Tid, int>) returns (o: Outcome)
      modifies this, waiters
      ensures State(prio) == M.Next(old(State(prio)), M.Take(t, wait))
      ensures o.Done? <==> M.Granted(old(State(prio)), M.Take(t, wait)) == [t]
      ensures o.Done? <==> old(value) > 0
      ensures o.Asleep? <==> old(value) == 0 && wait
      ensures o.TimedOut? ==> State(prio) == old(State(prio))
      ensures value == if o.Done? then old(value) - 1 else old(value)
      ensures if o.Asleep? then Enters(old(waiters.list), waiters.list, t, flag, prio) else waiters.list == old(waiters.list)
    {
      hide Enters;
      if value > 0 {
        value := value - 1;
        return Done;
      }
      if !wait {
        return TimedOut;
      }
      waiters.SuspendThread(t, flag, prio);
      return Asleep;
    }

    /** The thread that was resumed, if any. */
    method Release(prio: map<Tid, int>) returns (resumed: seq<Tid>)
      requires M.Can(State(prio), M.Release)
      modifies this, waiters
      ensures State(prio) == M.Next(old(State(prio)), M.Release)
      ensures resumed == M.Granted(old(State(prio)), M.Release)
      ensures old(waiters.list) == resumed + waiters.list && value + |resumed| == old(value) + 1
    {
      if waiters.list != [] {
        var t := waiters.ResumeFirst();
        return [t];
      }
      value := value + 1;
      return [];
    }

    method Reset(v: nat, prio: map<Tid, int>) returns (woken: seq<Tid>)
      modifies this, waiters
      ensures State(prio) == M.Next(old(State(prio)), M.Reset(v)) && woken == old(waiters.list)
      ensures v <= 0xFFFF ==> value == v
    {
      woken := waiters.ResumeAll();
      value := v % (M.MAX_VALUE + 1);
    }
  }
}
