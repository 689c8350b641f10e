/** The mutex: recursive ownership, priority inheritance, and hand-over on release. */
module MutexModel {
  import opened Sequences
  import opened WaitList

  datatype Owner = Nobody | Thread(t: Tid)

  /** `prio` holds the current priority of every thread; smaller is more urgent. */
  datatype Mutex = Mutex(
    flag: Flag, value: nat, owner: Owner, original: int, hold: nat, waiters: seq<Tid>, prio: map<Tid, int>)

  /** One critical section each; `wait` says whether the timeout given is non-zero. */
  datatype Event = Take(t: Tid, wait: bool) | Release(t: Tid) | Timeout(t: Tid)

  const NO_PRIORITY: int := 0xFF

  function Init(flag: Flag, prio: map<Tid, int>): Mutex {
    Mutex(flag, 1, Nobody, NO_PRIORITY, 0, [], prio)
  }

  /** A waiting thread does not run; the 8-bit hold counter must not overflow. */
  predicate Can(m: Mutex, e: Event) {
    match e
    case Take(t, _) => t in m.prio && t !in m.waiters && (m.owner == Thread(t) ==> m.hold < 0xFF)
    case Release(t) => t in m.prio && t !in m.waiters
    case Timeout(t) => t in m.waiters
  }

  /** rt_mutex_take: the owner inherits the priority of a more urgent thread that has to wait. */
  function TakeStep(m: Mutex, t: Tid, wait: bool): Mutex {
    if m.owner == Thread(t) then m.(hold := m.hold + 1)
    else if m.value > 0 then
      m.(value := m.value - 1, owner := Thread(t), original := Pri(m.prio, t), hold := m.hold + 1)
    else if !wait then m
    else Boost(m, t).(waiters := Suspend(m.waiters, t, m.flag, Boost(m, t).prio))
  }

  function Boost(m: Mutex, t: Tid): Mutex {
    if m.owner.Thread? && Pri(m.prio, t) < Pri(m.prio, m.owner.t) then m.(prio := m.prio[m.owner.t := Pri(m.prio, t)]) else m
  }

  function ReleaseStep(m: Mutex, t: Tid): Mutex {
    if m.owner != Thread(t) then m
    else if m.hold != 1 then m.(hold := if m.hold > 0 then m.hold - 1 else 0xFF)
    else
      var prio := m.prio[t := m.original];
      if m.waiters != [] then
        m.(owner := Thread(m.waiters[0]), original := Pri(prio, m.waiters[0]), hold := 1, waiters := m.waiters[1..], prio := prio)
      else m.(value := m.value + 1, owner := Nobody, original := NO_PRIORITY, hold := 0, prio := prio)
  }

  function Next(m: Mutex, e: Event): Mutex {
    match e
    case Take(t, wait) => TakeStep(m, t, wait)
    case Release(t) => ReleaseStep(m, t)
    case Timeout(t) => m.(waiters := Without(m.waiters, t))
  }

  // ------------------------------------------------------------------ invariants

  /** value is 1 iff nobody owns the mutex iff hold is 0; waiters imply an owner, who is not one
      of them. */
  ghost predicate Consistent(m: Mutex) {
    && (m.value == 1 <==> m.owner == Nobody) && (m.hold == 0 <==> m.owner == Nobody) && m.value <= 1
    && (m.waiters != [] ==> m.owner != Nobody)
    && Distinct(m.waiters)
    && (m.owner.Thread? ==> m.owner.t !in m.waiters && m.owner.t in m.prio)
    && (m.owner == Nobody ==> m.original == NO_PRIORITY)
    && forall t | t in m.waiters :: t in m.prio
  }

  /** Threads run at their own priority `base`, except that the owner may run at a more urgent
      one; its own priority is kept for the release. */
  ghost predicate OnlyOwnerBoosted(m: Mutex, base: map<Tid, int>) {
    && m.prio.Keys == base.Keys
    && (forall t | t in base && m.owner != Thread(t) :: m.prio[t] == base[t])
    && (m.owner.Thread? ==> Pri(m.prio, m.owner.t) <= m.original == Pri(base, m.owner.t))
  }

  /** No inversion: the owner is at least as urgent as every thread it keeps waiting. */
  ghost predicate NoInversion(m: Mutex) {
    forall t | t in m.waiters && m.owner.Thread? :: Pri(m.prio, m.owner.t) <= Pri(m.prio, t)
  }

  ghost predicate Inv(m: Mutex, base: map<Tid, int>) {
    && Consistent(m) && OnlyOwnerBoosted(m, base)
    && (m.flag.Prio? ==> Ordered(m.waiters, m.prio) && NoInversion(m))
  }

  lemma SamePriorities(s: seq<Tid>, prio: map<Tid, int>, prio': map<Tid, int>)
    requires Ordered(s, prio) && forall t | t in s :: Pri(prio, t) == Pri(prio', t)
    ensures Ordered(s, prio')
  {
  }

  lemma WaitingMembers(m: Mutex, t: Tid)
    requires Distinct(m.waiters) && t !in m.waiters
    ensures var w := Suspend(m.waiters, t, m.flag, m.prio);
            Distinct(w) && forall x :: x in w <==> x in m.waiters || x == t
  {
    SuspendMembers(m.waiters, t, m.flag, m.prio);
  }

  lemma TakeConsistent(m: Mutex, base: map<Tid, int>, t: Tid, wait: bool)
    requires Can(m, Take(t, wait)) && Consistent(m) && OnlyOwnerBoosted(m, base)
    ensures Consistent(TakeStep(m, t, wait)) && OnlyOwnerBoosted(TakeStep(m, t, wait), base)
  {
    WaitingMembers(Boost(m, t), t);
    hide Suspend;
  }

  lemma ReleaseConsistent(m: Mutex, base: map<Tid, int>, t: Tid)
    requires Can(m, Release(t)) && Consistent(m) && OnlyOwnerBoosted(m, base)
    ensures Consistent(ReleaseStep(m, t)) && OnlyOwnerBoosted(ReleaseStep(m, t), base)
  {
  }

  lemma TimeoutConsistent(m: Mutex, base: map<Tid, int>, t: Tid)
    requires Consistent(m) && OnlyOwnerBoosted(m, base)
    ensures Consistent(Next(m, Timeout(t))) && OnlyOwnerBoosted(Next(m, Timeout(t)), base)
  {
    WithoutMembers(m.waiters, t);
    hide Without;
  }

  lemma TakeOrdered(m: Mutex, base: map<Tid, int>, t: Tid, wait: bool)
    requires Can(m, Take(t, wait)) && Consistent(m) && m.flag.Prio? && Ordered(m.waiters, m.prio)
    ensures var r := TakeStep(m, t, wait); Ordered(r.waiters, r.prio)
  {
    var b := Boost(m, t);
    SamePriorities(m.waiters, m.prio, b.prio);
    SuspendOrdered(m.waiters, t, b.prio);
    hide Suspend, Ordered;
  }

  /** Taking never creates an inversion, whatever the queueing order. */
  lemma TakeNoInversion(m: Mutex, t: Tid, wait: bool)
    requires Can(m, Take(t, wait)) && Consistent(m) && NoInversion(m)
    ensures NoInversion(TakeStep(m, t, wait))
  {
    WaitingMembers(Boost(m, t), t);
    hide Suspend;
  }

  /** Releasing keeps the owner the most urgent exactly when the thread that receives the mutex,
      the head of the wait list, is at least as urgent as the others on it. */
  lemma ReleaseNoInversion(m: Mutex, t: Tid)
    requires Can(m, Release(t)) && Consistent(m) && NoInversion(m)
    ensures NoInversion(ReleaseStep(m, t)) <==>
            (m.owner == Thread(t) && m.hold == 1 ==> forall u | u in m.waiters :: Pri(m.prio, m.waiters[0]) <= Pri(m.prio, u))
  {
    var r := ReleaseStep(m, t);
    if m.owner == Thread(t) && m.hold == 1 && m.waiters != [] {
      assert forall u | u in m.waiters :: Pri(r.prio, u) == Pri(m.prio, u);
      assert m.waiters[0] in m.waiters;
      assert forall u :: u in m.waiters <==> u == m.waiters[0] || u in r.waiters;
    }
  }

  lemma RunOne(m: Mutex, e: Event, es: seq<Event>)
    requires Can(m, e) && Runs(Next(m, e), es)
    ensures Runs(m, [e] + es) && After(m, [e] + es) == After(Next(m, e), es)
  {
    hide Next, Can;
    assert ([e] + es)[1..] == es;
  }

  /** Threads 1, 2 and 3, of priorities 10, 20 and 5. */
  const OWN: map<Tid, int> := map[1 := 10, 2 := 20, 3 := 5]
  const BOOSTED: map<Tid, int> := map[1 := 5, 2 := 20, 3 := 5]

  const HELD := Mutex(Fifo, 0, Thread(1), 10, 1, [], OWN)
  const ONE_WAITS := Mutex(Fifo, 0, Thread(1), 10, 1, [2], OWN)
  const TWO_WAIT := Mutex(Fifo, 0, Thread(1), 10, 1, [2, 3], BOOSTED)
  const HANDED_OVER := Mutex(Fifo, 0, Thread(2), 20, 1, [3], OWN)

  lemma FirstTake()
    ensures Can(Init(Fifo, OWN), Take(1, true)) && Next(Init(Fifo, OWN), Take(1, true)) == HELD
  {
  }

  /** Who cannot have a FIFO mutex queues up at the end. */
  lemma QueuesUp(m: Mutex, t: Tid)
    requires m.flag.Fifo? && m.owner.Thread? && m.owner.t != t && m.value == 0 && t in m.prio && t !in m.waiters
    ensures Can(m, Take(t, true)) && Next(m, Take(t, true)) == Boost(m, t).(waiters := m.waiters + [t])
  {
    FifoSuspend(m.waiters, t, Boost(m, t).prio);
    hide Suspend;
  }

  lemma HandOver()
    ensures Can(TWO_WAIT, Release(1)) && Next(TWO_WAIT, Release(1)) == HANDED_OVER
    ensures !NoInversion(HANDED_OVER)
  {
    assert BOOSTED[1 := 10] == OWN;
    assert [2, 3][1..] == [3];
    assert 3 in HANDED_OVER.waiters;
  }

  /** With first-come-first-served waiters the hand-over does create an inversion: thread 3 of
      priority 5 waits for thread 2 of priority 20. */
  lemma FifoHandoverInverts()
    ensures var es := [Take(1, true)] + ([Take(2, true)] + ([Take(3, true)] + ([Release(1)] + [])));
            Runs(Init(Fifo, OWN), es) && !NoInversion(After(Init(Fifo, OWN), es))
  {
    hide Next, Can, NoInversion;
    FirstTake();
    QueuesUp(HELD, 2);
    QueuesUp(ONE_WAITS, 3);
    assert [] + [2] == [2] && [2] + [3] == [2, 3] && OWN[1 := 5] == BOOSTED;
    assert Next(HELD, Take(2, true)) == ONE_WAITS && Next(ONE_WAITS, Take(3, true)) == TWO_WAIT;
    HandOver();
    assert Runs(HANDED_OVER, []) && After(HANDED_OVER, []) == HANDED_OVER;
    RunOne(TWO_WAIT, Release(1), []);
    RunOne(ONE_WAITS, Take(3, true), [Release(1)] + []);
    RunOne(HELD, Take(2, true), [Take(3, true)] + ([Release(1)] + []));
    RunOne(Init(Fifo, OWN), Take(1, true), [Take(2, true)] + ([Take(3, true)] + ([Release(1)] + [])));
  }

  lemma ReleaseOrdered(m: Mutex, t: Tid)
    requires Consistent(m) && Ordered(m.waiters, m.prio)
    ensures var r := ReleaseStep(m, t); Ordered(r.waiters, r.prio)
  {
    if m.owner == Thread(t) && m.hold == 1 {
      SamePriorities(m.waiters, m.prio, m.prio[t := m.original]);
    }
  }

  lemma StepInv(m: Mutex, base: map<Tid, int>, e: Event)
    requires Can(m, e) && Inv(m, base)
    ensures Inv(Next(m, e), base)
  {
    match e
    case Take(t, wait) =>
      hide Consistent, OnlyOwnerBoosted, Ordered, NoInversion, Suspend;
      TakeConsistent(m, base, t, wait);
      if m.flag.Prio? { TakeOrdered(m, base, t, wait); TakeNoInversion(m, t, wait); }
    case Release(t) =>
      hide Consistent, OnlyOwnerBoosted, NoInversion;
      ReleaseConsistent(m, base, t);
      if m.flag.Prio? {
        ReleaseOrdered(m, t);
        assert forall u | u in m.waiters :: Pri(m.prio, m.waiters[0]) <= Pri(m.prio, u);
        ReleaseNoInversion(m, t);
      }
    case Timeout(t) =>
      TimeoutConsistent(m, base, t);
      WithoutOrderedIf(m, t);
      WithoutMembers(m.waiters, t);
      hide Consistent, OnlyOwnerBoosted, Ordered, Without;
  }

  lemma WithoutOrderedIf(m: Mutex, t: Tid)
    ensures Ordered(m.waiters, m.prio) ==> Ordered(Without(m.waiters, t), m.prio)
  {
    if Ordered(m.waiters, m.prio) { WithoutOrdered(m.waiters, t, m.prio); }
  }

  // ------------------------------------------------------------------ whole runs

  predicate Runs(m: Mutex, es: seq<Event>)
    decreases |es|
  {
    es == [] || (Can(m, es[0]) && Runs(Next(m, es[0]), es[1..]))
  }

  function After(m: Mutex, es: seq<Event>): Mutex
    decreases |es|
  {
    if es == [] then m else After(Next(m, es[0]), es[1..])
  }

  lemma {:induction false} AnyRun(m: Mutex, base: map<Tid, int>, es: seq<Event>)
    requires Inv(m, base) && Runs(m, es)
    ensures Inv(After(m, es), base)
    decreases |es|
  {
    if es != [] {
      hide Inv, Can, Next;
      StepInv(m, base, es[0]);
      AnyRun(Next(m, es[0]), base, es[1..]);
    }
  }

  /** From initialisation on, under takes, releases, timeouts and hand-overs: a thread that does
      not own the mutex runs at the priority it started with, so the full release gives back the
      inherited priority; and with priority queueing the owner is never less urgent than a waiter. */
  lemma EveryRunFromInit(flag: Flag, base: map<Tid, int>, es: seq<Event>)
    requires Runs(Init(flag, base), es)
    ensures var r := After(Init(flag, base), es);
            && Consistent(r)
            && (forall t | t in base && r.owner != Thread(t) :: Pri(r.prio, t) == base[t])
            && (flag.Prio? ==> NoInversion(r))
  {
    AnyRun(Init(flag, base), base, es);
    FlagKept(Init(flag, base), es);
    hide Consistent, NoInversion;
  }

  lemma {:induction false} FlagKept(m: Mutex, es: seq<Event>)
    ensures After(m, es).flag == m.flag
    decreases |es|
  {
    if es != [] { FlagKept(Next(m, es[0]), es[1..]); }
  }

  /** Whenever the mutex is handed over, its new owner is at least as urgent as those still waiting. */
  predicate FairHandovers(m: Mutex, es: seq<Event>)
    decreases |es|
  {
    es == [] ||
    ((es[0].Release? && m.owner == Thread(es[0].t) && m.hold == 1 ==> forall u | u in m.waiters :: Pri(m.prio, m.waiters[0]) <= Pri(m.prio, u))
     && FairHandovers(Next(m, es[0]), es[1..]))
  }

  ghost predicate NeverInverted(m: Mutex, es: seq<Event>)
    decreases |es|
  {
    NoInversion(m) && (es == [] || NeverInverted(Next(m, es[0]), es[1..]))
  }

  lemma TimeoutNoInversion(m: Mutex, t: Tid)
    requires Distinct(m.waiters) && NoInversion(m)
    ensures NoInversion(Next(m, Timeout(t)))
  {
    WithoutMembers(m.waiters, t);
    hide Without;
  }

  /** With either kind of queueing, hand-overs to a less urgent thread are the only way to an
      inversion: a run is free of inversions exactly when all its hand-overs are fair. */
  lemma {:induction false} InversionsComeFromHandovers(m: Mutex, base: map<Tid, int>, es: seq<Event>)
    requires Consistent(m) && OnlyOwnerBoosted(m, base) && NoInversion(m) && Runs(m, es)
    ensures NeverInverted(m, es) <==> FairHandovers(m, es)
    decreases |es|
  {
    if es != [] {
      var e := es[0];
      hide Consistent, OnlyOwnerBoosted, NoInversion, Suspend, Without;
      match e {
        case Take(t, wait) => TakeConsistent(m, base, t, wait); TakeNoInversion(m, t, wait);
        case Release(t) => ReleaseConsistent(m, base, t); ReleaseNoInversion(m, t);
        case Timeout(t) => TimeoutConsistent(m, base, t); TimeoutNoInversion(m, t) by { WaitersDistinct(m); }
      }
      if NoInversion(Next(m, e)) {
        hide Next;
        InversionsComeFromHandovers(Next(m, e), base, es[1..]);
      }
    }
  }

  lemma WaitersDistinct(m: Mutex)
    requires Consistent(m)
    ensures Distinct(m.waiters)
  {
  }

  /** The full release hands the mutex to the most urgent waiter and, among equally urgent ones,
      to the one that has waited longest; every other waiter keeps its place. */
  lemma HandoverToMostUrgent(m: Mutex, base: map<Tid, int>, t: Tid, k: nat)
    requires Inv(m, base) && m.flag.Prio? && m.owner == Thread(t) && m.hold == 1 && k < |m.waiters|
    ensures ReleaseStep(m, t).owner == Thread(m.waiters[0]) && ReleaseStep(m, t).waiters == m.waiters[1..]
    ensures Pri(m.prio, m.waiters[0]) <= Pri(m.prio, m.waiters[k])
    ensures Pri(ReleaseStep(m, t).prio, t) == Pri(base, t)
  {
    hide Consistent, NoInversion;
  }

  // ------------------------------------------------------------------ answers

  /** What a take answers: the mutex is the caller's if it was free or its own already; otherwise
      a caller that waits queues up and presses its priority on the owner, and one that does not
      wait changes nothing. */
  lemma TakeAnswers(m: Mutex, t: Tid, wait: bool, u: Tid)
    requires Consistent(m) && Can(m, Take(t, wait))
    ensures var r, got := Next(m, Take(t, wait)), m.owner == Nobody || m.owner == Thread(t);
            && r.owner == (if got then Thread(t) else m.owner)
            && r.hold == (if got then m.hold + 1 else m.hold)
            && r.original == (if m.owner == Nobody then Pri(m.prio, t) else m.original)
            && (t in r.waiters <==> !got && wait)
            && (if got || !wait then r.waiters == m.waiters else Enters(m.waiters, r.waiters, t, m.flag, r.prio))
            && Pri(r.prio, u) == if !got && wait && m.owner == Thread(u) && Pri(m.prio, t) < Pri(m.prio, u) then Pri(m.prio, t) else Pri(m.prio, u)
  {
    var r := Next(m, Take(t, wait));
    SuspendEnters(m.waiters, r.waiters, t, m.flag, r.prio);
    WaitingMembers(Boost(m, t), t);
    hide Suspend, Enters;
  }

  /** What a release answers: nothing happens to a mutex of somebody else; one hold goes; with the
      last one the caller has its own priority back, and the mutex is free or its first waiter's. */
  lemma ReleaseAnswers(m: Mutex, t: Tid, u: Tid)
    requires Consistent(m) && t in m.prio
    ensures var r := Next(m, Release(t));
            if m.owner != Thread(t) then r == m
            else if m.hold > 1 then r == m.(hold := m.hold - 1)
            else
              && Pri(r.prio, u) == (if u == t then m.original else Pri(m.prio, u))
              && (m.waiters == [] ==> r.owner == Nobody && r.hold == 0 && r.value == 1 && r.original == 0xFF && r.waiters == [])
              && (m.waiters != [] ==>
                    && r.owner == Thread(m.waiters[0]) && r.hold == 1 && r.value == 0
                    && r.original == Pri(m.prio, m.waiters[0]) && m.waiters == [m.waiters[0]] + r.waiters)
  {
    if m.waiters != [] { assert m.waiters[0] in m.waiters; }
  }

  /** A timeout takes the thread off the list and does nothing else; in particular the owner keeps
      the priority the thread pressed on it. */
  lemma TimeoutAnswers(m: Mutex, t: Tid)
    requires t in m.waiters
    ensures var r := Next(m, Timeout(t)); Leaves(m.waiters, r.waiters, t) && r == m.(waiters := r.waiters)
  {
    WithoutLeaves(m.waiters, t);
    hide Without;
  }

  // ------------------------------------------------------------------ mutual exclusion

  /** Takes granted to t, now or by hand-over, minus the releases it made, in one step. */
  function Gain(m: Mutex, e: Event, t: Tid): int {
    match e
    case Take(u, _) => if u == t && (m.owner == Thread(u) || m.value > 0) then 1 else 0
    case Release(u) =>
      if m.owner != Thread(u) then 0
      else if u == t then -1
      else if m.hold == 1 && m.waiters != [] && m.waiters[0] == t then 1 else 0
    case Timeout(_) => 0
  }

  function Balance(m: Mutex, es: seq<Event>, t: Tid): int
    decreases |es|
  {
    if es == [] then 0 else Gain(m, es[0], t) + Balance(Next(m, es[0]), es[1..], t)
  }

  function HoldOf(m: Mutex, t: Tid): nat {
    if m.owner == Thread(t) then m.hold else 0
  }

  lemma {:induction false} HoldIsBalance(m: Mutex, base: map<Tid, int>, es: seq<Event>, t: Tid)
    requires Inv(m, base) && Runs(m, es)
    ensures HoldOf(After(m, es), t) == HoldOf(m, t) + Balance(m, es, t)
    decreases |es|
  {
    if es != [] {
      GainIsHold(m, base, es[0], t);
      StepInv(m, base, es[0]);
      hide Inv, Can, Next, Gain;
      HoldIsBalance(Next(m, es[0]), base, es[1..], t);
    }
  }

  lemma GainIsHold(m: Mutex, base: map<Tid, int>, e: Event, t: Tid)
    requires Inv(m, base) && Can(m, e)
    ensures HoldOf(Next(m, e), t) == HoldOf(m, t) + Gain(m, e, t)
  {
    hide OnlyOwnerBoosted, Ordered, NoInversion, Suspend, Without;
    if m.waiters != [] { assert m.waiters[0] in m.waiters; }
  }

  /** Over every run, whoever has more grants than releases is the one owner. */
  lemma MutualExclusion(flag: Flag, base: map<Tid, int>, es: seq<Event>, t: Tid, u: Tid)
    requires Runs(Init(flag, base), es)
    requires Balance(Init(flag, base), es, t) > 0 && Balance(Init(flag, base), es, u) > 0
    ensures t == u && After(Init(flag, base), es).owner == Thread(t)
    ensures After(Init(flag, base), es).hold == Balance(Init(flag, base), es, t)
  {
    HoldIsBalance(Init(flag, base), base, es, t);
    HoldIsBalance(Init(flag, base), base, es, u);
  }
}

/** The mutex object of the kernel, with the priorities its calls change. */
module MutexObject {
  import opened WaitList
  import opened M = MutexModel

  datatype Outcome = Done | Asleep | Refused

  class KernelMutex {
    const flag: Flag
    var value: nat
    var owner: Owner
    var original: int
    var hold: nat
    const waiters: WaitQueue
    var prio: map<Tid, int>

    function State(): Mutex
      reads this, waiters
    {
      Mutex(flag, value, owner, original, hold, waiters.list, prio)
    }

    constructor (flag: Flag, prio: map<Tid, int>)
      ensures State() == Init(flag, prio) && fresh(waiters)
    {
      this.flag := flag;
      value, owner, original, hold := 1, Nobody, NO_PRIORITY, 0;
      waiters := new WaitQueue();
      this.prio := prio;
    }

    /** The critical section of rt_mutex_take. */
    method Take(t: Tid, wait: bool) returns (o: Outcome)
      requires Consistent(State()) && Can(State(), M.Take(t, wait))
      modifies this, waiters
      ensures State() == Next(old(State()), M.Take(t, wait))
      ensures o.Done? <==> old(owner) == Nobody || old(owner) == Thread(t)
      ensures o.Asleep? <==> old(owner) != Nobody && old(owner) != Thread(t) && wait
      ensures o.Done? ==> owner == Thread(t) && hold == old(hold) + 1
      ensures o.Refused? ==> State() == old(State())
      ensures if o.Asleep? then Enters(old(waiters.list), waiters.list, t, flag, prio) else waiters.list == old(waiters.list)
    {
      hide Enters;
      if owner == Thread(t) {
        hold := hold + 1;
        return Done;
      }
      if value > 0 {
        value := value - 1;
        owner := Thread(t);
        original := Pri(prio, t);
        hold := hold + 1;
        return Done;
      }
      if !wait {
        return Refused;
      }
      if Pri(prio, t) < Pri(prio, owner.t) {
        prio := prio[owner.t := Pri(prio, t)];
      }
      SuspendMembers(waiters.list, t, flag, prio);
      waiters.SuspendThread(t, flag, prio);
      return Asleep;
    }

    /** rt_mutex_release; false when the caller is not the owner. */
    method Release(t: Tid) returns (ok: bool)
      requires Consistent(State())
      modifies this, waiters
      ensures State() == Next(old(State()), M.Release(t))
      ensures ok == (old(owner) == Thread(t))
      ensures ok && old(hold) == 1 ==> owner == if old(waiters.list) == [] then Nobody else Thread(old(waiters.list)[0])
    {
      if owner != Thread(t) {
        return false;
      }
      hold := hold - 1;
      if hold == 0 {
        if original != Pri(prio, t) {
          prio := prio[t := original];
        }
        assert prio == old(prio)[t := original];
        if waiters.list != [] {
          owner := Thread(waiters.list[0]);
          original := Pri(prio, waiters.list[0]);
          hold := hold + 1;
          var _ := waiters.ResumeFirst();
        } else {
          value := value + 1;
          owner := Nobody;
          original := NO_PRIORITY;
        }
      }
      return true;
    }

    /** The timer of a waiting thread fires. */
    method Timeout(t: Tid)
      modifies waiters
      ensures State() == Next(old(State()), M.Timeout(t))
    {
      waiters.Remove(t);
    }
  }
}
