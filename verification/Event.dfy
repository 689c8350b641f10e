/** The event object: 32 event bits, and threads waiting for all or for any of some of them. */
module EventModel {
  import opened Sequences
  import opened WaitList

  /** The set bits of a 32-bit event word. */
  type Bits = set<nat>

  /** The bits of the option byte. */
  datatype Option = Option(all: bool, any: bool, clear: bool)

  /** The event fields of a thread: what it waits for and, once woken, what it received. */
  datatype Info = Info(bits: Bits, option: Option)

  /** AND takes precedence when both options are given. */
  predicate Satisfied(events: Bits, i: Info) {
    if i.option.all then events * i.bits == i.bits
    else i.option.any && events * i.bits != {}
  }

  // ------------------------------------------------------------------ an immediate receive

  datatype Reply = Reply(ok: bool, recved: Bits, events: Bits)

  /** A receive that finds its condition met reports its bits of the set and, with CLEAR, takes
      every bit it asked for out of the set. */
  function Poll(events: Bits, i: Info): Reply {
    if Satisfied(events, i) then Reply(true, events * i.bits, if i.option.clear then events - i.bits else events)
    else Reply(false, {}, events)
  }

  /** What that means, bit by bit: with AND every bit asked for is set and reported; with OR at
      least one is, and those that are set are reported; CLEAR takes all of the bits asked for out
      of the set, not only the reported ones, and a condition that is not met changes nothing. */
  lemma PollMeans(events: Bits, i: Info)
    requires i.option.all || i.option.any
    ensures var p := Poll(events, i);
            && (i.option.all ==> (p.ok <==> i.bits <= events) && (p.ok ==> p.recved == i.bits))
            && (!i.option.all ==> (p.ok <==> exists b | b in i.bits :: b in events))
            && (p.ok ==> forall b :: b in p.recved <==> b in i.bits && b in events)
            && (forall b :: b in p.events <==> b in events && !(p.ok && i.option.clear && b in i.bits))
  {
    var p := Poll(events, i);
    assert forall b :: b in events * i.bits <==> b in events && b in i.bits;
    if i.option.all {
      if i.bits <= events { assert events * i.bits == i.bits; }
    } else if p.ok {
      var b :| b in events * i.bits;
      assert b in i.bits && b in events;
    }
  }

  // ------------------------------------------------------------------ the scan of a send

  datatype Scanned = Scanned(kept: seq<Tid>, events: Bits, info: map<Tid, Info>, served: seq<Tid>)

  function InfoOf(info: map<Tid, Info>, t: Tid): Info {
    if t in info then info[t] else Info({}, Option(false, false, false))
  }

  /** What a woken thread's fields become. */
  function Received(events: Bits, i: Info): Info {
    if i.option.all then i else i.(bits := i.bits * events)
  }

  function Cleared(events: Bits, j: Info): Bits {
    if j.option.clear then events - j.bits else events
  }

  function Scan(w: seq<Tid>, events: Bits, info: map<Tid, Info>): Scanned {
    if w == [] then Scanned([], events, info, [])
    else
      var t, i := w[0], InfoOf(info, w[0]);
      if Satisfied(events, i) then
        var j := Received(events, i);
        var r := Scan(w[1..], Cleared(events, j), info[t := j]);
        r.(served := [t] + r.served)
      else
        var r := Scan(w[1..], events, info);
        r.(kept := [t] + r.kept)
  }

  lemma GrantIsPoll(events: Bits, i: Info)
    requires Satisfied(events, i)
    ensures Poll(events, i) == Reply(true, Received(events, i).bits, Cleared(events, Received(events, i)))
  {
  }

  /** The reference: each waiter in turn makes an immediate receive of its own.  What each gets. */
  function Turns(w: seq<Tid>, events: Bits, info: map<Tid, Info>): map<Tid, Bits> {
    if w == [] then map[]
    else
      var p := Poll(events, InfoOf(info, w[0]));
      if p.ok then Turns(w[1..], p.events, info)[w[0] := p.recved] else Turns(w[1..], events, info)
  }

  function EventsAfterTurns(w: seq<Tid>, events: Bits, info: map<Tid, Info>): Bits {
    if w == [] then events
    else EventsAfterTurns(w[1..], Poll(events, InfoOf(info, w[0])).events, info)
  }

  lemma {:induction false} TurnsIgnore(w: seq<Tid>, events: Bits, info: map<Tid, Info>, t: Tid, j: Info)
    requires t !in w
    ensures Turns(w, events, info[t := j]) == Turns(w, events, info)
    ensures EventsAfterTurns(w, events, info[t := j]) == EventsAfterTurns(w, events, info)
  {
    if w != [] { TurnsIgnore(w[1..], Poll(events, InfoOf(info, w[0])).events, info, t, j); }
  }

  lemma {:induction false} TurnsServe(w: seq<Tid>, events: Bits, info: map<Tid, Info>)
    ensures Turns(w, events, info).Keys <= set t | t in w
  {
    if w != [] { TurnsServe(w[1..], Poll(events, InfoOf(info, w[0])).events, info); }
  }

  /** One scan serves the waiters exactly as if each had made its own receive, in list order:
      the same threads are woken, with the same bits, and the same set is left. */
  lemma {:induction false} ScanIsTurns(w: seq<Tid>, events: Bits, info: map<Tid, Info>)
    requires Distinct(w)
    ensures var r := Scan(w, events, info); var turns := Turns(w, events, info);
            && r.events == EventsAfterTurns(w, events, info)
            && (forall t :: t in r.served <==> t in turns)
            && (forall t | t in turns :: t in r.info && r.info[t].bits == turns[t])
    ensures forall t | t !in w :: InfoOf(Scan(w, events, info).info, t) == InfoOf(info, t)
  {
    if w != [] {
      var t, i := w[0], InfoOf(info, w[0]);
      assert t !in w[1..];
      hide Poll, Satisfied, Received, Cleared;
      if Satisfied(events, i) {
        GrantIsPoll(events, i);
        var j := Received(events, i);
        ScanIsTurns(w[1..], Cleared(events, j), info[t := j]);
        TurnsIgnore(w[1..], Cleared(events, j), info, t, j);
        TurnsServe(w[1..], Cleared(events, j), info);
      } else {
        NoGrant(events, i);
        ScanIsTurns(w[1..], events, info);
      }
    }
  }

  lemma NoGrant(events: Bits, i: Info)
    requires !Satisfied(events, i)
    ensures !Poll(events, i).ok && Poll(events, i).events == events
  {
  }

  /** Clearing bits can only make conditions fail. */
  lemma SatisfiedMonotone(a: Bits, b: Bits, i: Info)
    requires a <= b && Satisfied(a, i)
    ensures Satisfied(b, i)
  {
    if i.option.all {
      assert b * i.bits >= a * i.bits;
    } else {
      var x :| x in a * i.bits;
      assert x in b * i.bits;
    }
  }

  lemma ClearedSubset(events: Bits, j: Info)
    ensures Cleared(events, j) <= events
  {
  }

  /** The threads of w that are not in `gone`, in their old order. */
  function Except(w: seq<Tid>, gone: seq<Tid>): seq<Tid> {
    if w == [] then [] else (if w[0] in gone then [] else [w[0]]) + Except(w[1..], gone)
  }

  lemma {:induction false} ExceptOther(w: seq<Tid>, gone: seq<Tid>, t: Tid)
    requires t !in w
    ensures Except(w, [t] + gone) == Except(w, gone)
  {
    if w != [] { ExceptOther(w[1..], gone, t); }
  }

  /** Whoever a scan does not serve keeps its place in the list. */
  lemma {:induction false} ScanKeepsOrder(w: seq<Tid>, events: Bits, info: map<Tid, Info>)
    requires Distinct(w)
    ensures var r := Scan(w, events, info); r.kept == Except(w, r.served)
  {
    if w != [] {
      var t, i := w[0], InfoOf(info, w[0]);
      assert t !in w[1..];
      hide Satisfied, Received, Cleared;
      if Satisfied(events, i) {
        var j := Received(events, i);
        ScanKeepsOrder(w[1..], Cleared(events, j), info[t := j]);
        ExceptOther(w[1..], Scan(w[1..], Cleared(events, j), info[t := j]).served, t);
      } else {
        ScanKeepsOrder(w[1..], events, info);
        ScanServesSome(w[1..], events, info);
      }
    }
  }

  lemma ScanServesSome(w: seq<Tid>, events: Bits, info: map<Tid, Info>)
    requires Distinct(w)
    ensures forall t | t in Scan(w, events, info).served :: t in w
  {
    ScanLeavesUnsatisfied(w, events, info);
  }

  /** The threads a scan leaves waiting are not satisfied by the set it leaves, although waiters
      behind them may have cleared bits since they were seen. */
  lemma {:induction false} ScanLeavesUnsatisfied(w: seq<Tid>, events: Bits, info: map<Tid, Info>)
    requires Distinct(w)
    ensures var r := Scan(w, events, info);
            && r.events <= events && Distinct(r.kept)
            && (forall t | t in r.kept :: t in w && t !in r.served && InfoOf(r.info, t) == InfoOf(info, t) && !Satisfied(r.events, InfoOf(info, t)))
            && (forall t | t in w :: t in r.kept || t in r.served)
            && (forall t | t in r.served :: t in w)
            && (forall t | t !in w :: InfoOf(r.info, t) == InfoOf(info, t))
  {
    if w != [] {
      var t, i := w[0], InfoOf(info, w[0]);
      var v := w[1..];
      assert t !in v;
      assert forall x :: x in w <==> x == t || x in v;
      var r := Scan(w, events, info);
      hide Satisfied, Received, Cleared;
      if Satisfied(events, i) {
        var j := Received(events, i);
        var q := Scan(v, Cleared(events, j), info[t := j]);
        ScanLeavesUnsatisfied(v, Cleared(events, j), info[t := j]);
        assert Cleared(events, j) <= events by { ClearedSubset(events, j); }
        assert r.kept == q.kept && r.served == [t] + q.served;
      } else {
        var q := Scan(v, events, info);
        ScanLeavesUnsatisfied(v, events, info);
        if Satisfied(q.events, i) { SatisfiedMonotone(q.events, events, i); }
        assert r.kept == [t] + q.kept && r.served == q.served;
      }
    }
  }

  // ------------------------------------------------------------------ the object and its runs

  /** `asked` records what each thread that had to sleep asked for; `granted`, for a woken thread
      that has not run yet, what an immediate receive would have returned to it when it was woken. */
  datatype EventState = EventState(
    flag: Flag, prio: map<Tid, int>, events: Bits, waiters: seq<Tid>, info: map<Tid, Info>,
    asked: map<Tid, Info>, granted: map<Tid, Bits>)

  /** What rt_event_recv comes to before it can sleep. */
  datatype Outcome = Error | Got(recved: Bits) | TimedOut | Asleep

  datatype Event =
    | Send(bits: Bits)
    | Receive(t: Tid, want: Info, wait: bool)
    | Resume(t: Tid)
    | Timeout(t: Tid)
    | Reset

  function Init(flag: Flag, prio: map<Tid, int>): EventState {
    EventState(flag, prio, {}, [], map[], map[], map[])
  }

  /** A receive must give at least one of AND and OR. */
  predicate Can(s: EventState, e: Event) {
    match e
    case Send(_) => true
    case Receive(t, want, _) => t !in s.waiters && t !in s.granted && (want.option.all || want.option.any)
    case Resume(t) => t in s.granted
    case Timeout(t) => t in s.waiters
    case Reset => true
  }

  function SendStep(s: EventState, bits: Bits): EventState {
    if bits == {} then s
    else
      var r := Scan(s.waiters, s.events + bits, s.info);
      s.(events := r.events, waiters := r.kept, info := r.info, granted := s.granted + Turns(s.waiters, s.events + bits, s.info))
  }

  /** Bits 0 is an error; otherwise the call polls, and sleeps if it may. */
  function ReceiveStep(s: EventState, t: Tid, want: Info, wait: bool): EventState {
    var p := Poll(s.events, want);
    if want.bits == {} then s
    else if p.ok then s.(events := p.events)
    else if !wait then s
    else s.(info := s.info[t := want], asked := s.asked[t := want], waiters := Suspend(s.waiters, t, s.flag, s.prio))
  }

  function Answer(events: Bits, want: Info, wait: bool): Outcome {
    var p := Poll(events, want);
    if want.bits == {} then Error else if p.ok then Got(p.recved) else if wait then Asleep else TimedOut
  }

  /** What a receive answers and leaves.  It sleeps or times out exactly when its condition is not
      met, sleeps in its place of the list, and changes the set only by the bits it clears. */
  lemma ReceiveAnswers(s: EventState, t: Tid, want: Info, wait: bool)
    requires Can(s, Receive(t, want, wait))
    ensures var met := if want.option.all then want.bits <= s.events else exists b | b in want.bits :: b in s.events;
            var a, r := Answer(s.events, want, wait), Next(s, Receive(t, want, wait));
            && (a.Error? <==> want.bits == {})
            && (a.Got? <==> want.bits != {} && met)
            && (a.Asleep? <==> want.bits != {} && !met && wait)
            && (a.TimedOut? <==> want.bits != {} && !met && !wait)
            && (a.Got? ==> (forall b :: b in a.recved <==> b in want.bits && b in s.events) && a.recved != {})
            && (a.Got? && want.option.all ==> a.recved == want.bits)
            && (forall b :: b in r.events <==> b in s.events && !(a.Got? && want.option.clear && b in want.bits))
            && r.granted == s.granted && r.prio == s.prio && r.flag == s.flag
            && (if a.Asleep? then Enters(s.waiters, r.waiters, t, s.flag, s.prio) && r.info == s.info[t := want]
                else r.waiters == s.waiters && r.info == s.info)
  {
    PollMeans(s.events, want);
    hide Poll, Suspend, Enters;
    var a, r := Answer(s.events, want, wait), Next(s, Receive(t, want, wait));
    SuspendEnters(s.waiters, r.waiters, t, s.flag, s.prio);
    if a.Got? {
      var b :| b in want.bits && b in s.events;
      assert b in a.recved;
    }
  }

  function Next(s: EventState, e: Event): EventState {
    match e
    case Send(bits) => SendStep(s, bits)
    case Receive(t, want, wait) => ReceiveStep(s, t, want, wait)
    case Resume(t) => s.(granted := s.granted - {t})
    case Timeout(t) => s.(waiters := Without(s.waiters, t))
    case Reset => s.(waiters := [], events := {})
  }

  /** No suspended thread's condition is met, and a woken thread's fields hold the bits of its
      grant: all it asked for with AND, some of them with OR only. */
  ghost predicate Inv(s: EventState) {
    && Distinct(s.waiters)
    && (forall t | t in s.waiters :: t !in s.granted && t in s.asked && Waiting(s.events, InfoOf(s.info, t), s.asked[t]))
    && (forall t | t in s.granted :: t in s.asked && Granted(InfoOf(s.info, t).bits, s.granted[t], s.asked[t]))
  }

  predicate Waiting(events: Bits, i: Info, asked: Info) {
    i == asked && asked.bits != {} && (asked.option.all || asked.option.any) && !Satisfied(events, asked)
  }

  predicate Granted(bits: Bits, granted: Bits, asked: Info) {
    bits == granted && granted != {} && granted <= asked.bits && (asked.option.all ==> granted == asked.bits)
  }

  lemma PollGrants(events: Bits, i: Info)
    requires Poll(events, i).ok && i.bits != {}
    ensures Granted(Poll(events, i).recved, Poll(events, i).recved, i)
  {
  }

  /** What the waiters are granted is theirs and set. */
  lemma {:induction false} TurnsGrant(w: seq<Tid>, events: Bits, info: map<Tid, Info>)
    requires forall t | t in w :: InfoOf(info, t).bits != {}
    ensures forall t | t in Turns(w, events, info) :: var b := Turns(w, events, info)[t];
              t in w && Granted(b, b, InfoOf(info, t)) && b <= events
  {
    if w != [] {
      var p := Poll(events, InfoOf(info, w[0]));
      if p.ok { PollGrants(events, InfoOf(info, w[0])); }
      TurnsGrant(w[1..], p.events, info);
    }
  }

  /** What a scan stores for the threads it serves is what their turns grant. */
  lemma SendGrants(s: EventState, all: Bits, t: Tid)
    requires Inv(s) && t in Turns(s.waiters, all, s.info)
    ensures t in s.asked && t in s.waiters && t !in Scan(s.waiters, all, s.info).kept
    ensures Granted(InfoOf(Scan(s.waiters, all, s.info).info, t).bits, Turns(s.waiters, all, s.info)[t], s.asked[t])
  {
    ScanLeavesUnsatisfied(s.waiters, all, s.info);
    ScanIsTurns(s.waiters, all, s.info);
    assert forall u | u in s.waiters :: Waiting(s.events, InfoOf(s.info, u), s.asked[u]);
    TurnsGrant(s.waiters, all, s.info);
    hide Scan, Turns, EventsAfterTurns, Satisfied;
  }

  lemma SendKeeps(s: EventState, bits: Bits)
    requires Inv(s)
    ensures Inv(SendStep(s, bits))
  {
    if bits != {} {
      var all := s.events + bits;
      ScanLeavesUnsatisfied(s.waiters, all, s.info);
      ScanIsTurns(s.waiters, all, s.info);
      hide Scan, Turns, EventsAfterTurns, Satisfied, Granted;
      var r := SendStep(s, bits);
      forall t | t in r.waiters ensures t !in r.granted && t in r.asked && Waiting(r.events, InfoOf(r.info, t), r.asked[t]) {
        assert Waiting(s.events, InfoOf(s.info, t), s.asked[t]);
      }
      forall t | t in r.granted ensures t in r.asked && Granted(InfoOf(r.info, t).bits, r.granted[t], r.asked[t]) {
        if t in Turns(s.waiters, all, s.info) { SendGrants(s, all, t); }
      }
    }
  }

  /** What a send answers: it wakes nobody whose condition the new set does not meet, grants each
      thread it wakes its bits of that set, and leaves asleep, in their order, threads whose
      condition the set it leaves does not meet. */
  lemma SendAnswers(s: EventState, bits: Bits, t: Tid)
    requires Inv(s) && bits != {}
    ensures var all, r := s.events + bits, Next(s, Send(bits));
            && r.events <= all && r.waiters == Except(s.waiters, Scan(s.waiters, all, s.info).served)
            && (forall b: nat :: b in r.events <==> b in all && !ClearedBy(s.waiters, r.granted, s.asked, b))
            && (t in s.waiters ==> (t in r.waiters <==> t !in r.granted))
            && (t in r.granted && t in s.waiters && s.asked[t].option.all ==> r.granted[t] == s.asked[t].bits <= all)
            && (t in r.granted && t in s.waiters && !s.asked[t].option.all
                ==> r.granted[t] != {} && r.granted[t] <= s.asked[t].bits && r.granted[t] <= all)
            && (t in s.granted ==> t in r.granted && r.granted[t] == s.granted[t])
            && (s.waiters != [] && t == s.waiters[0] ==> (t in r.granted <==>
                  if s.asked[t].option.all then s.asked[t].bits <= all else exists b | b in s.asked[t].bits :: b in all))
  {
    var all := s.events + bits;
    SendKeeps(s, bits);
    ScanKeepsOrder(s.waiters, all, s.info);
    ScanLeavesUnsatisfied(s.waiters, all, s.info);
    ScanIsTurns(s.waiters, all, s.info);
    assert forall t | t in s.waiters :: Waiting(s.events, InfoOf(s.info, t), s.asked[t]);
    TurnsGrant(s.waiters, all, s.info);
    if s.waiters != [] { FirstTurn(s.waiters, all, s.info); }
    forall b: nat ensures b in Next(s, Send(bits)).events <==> b in all && !ClearedBy(s.waiters, Next(s, Send(bits)).granted, s.asked, b) {
      TurnsClear(s.waiters, all, s.info, b);
      SameClears(s, Turns(s.waiters, all, s.info), b);
    }
    hide Scan, Turns, EventsAfterTurns, Satisfied;
  }

  lemma SameClears(s: EventState, turns: map<Tid, Bits>, b: nat)
    requires Inv(s)
    ensures ClearedBy(s.waiters, turns, s.info, b) <==> ClearedBy(s.waiters, s.granted + turns, s.asked, b)
  {
    assert forall t | t in s.waiters :: Waiting(s.events, InfoOf(s.info, t), s.asked[t]);
    hide Satisfied;
    if ClearedBy(s.waiters, turns, s.info, b) {
      var t :| t in s.waiters && t in turns && InfoOf(s.info, t).option.clear && b in InfoOf(s.info, t).bits;
      assert t in s.granted + turns && InfoOf(s.asked, t) == InfoOf(s.info, t);
    }
    if ClearedBy(s.waiters, s.granted + turns, s.asked, b) {
      var t :| t in s.waiters && t in s.granted + turns && InfoOf(s.asked, t).option.clear && b in InfoOf(s.asked, t).bits;
      assert t in turns && InfoOf(s.asked, t) == InfoOf(s.info, t);
    }
  }

  ghost predicate ClearedBy(w: seq<Tid>, turns: map<Tid, Bits>, info: map<Tid, Info>, b: nat) {
    exists t :: t in w && t in turns && InfoOf(info, t).option.clear && b in InfoOf(info, t).bits
  }

  /** The bits that are gone are those a woken thread with CLEAR asked for. */
  lemma {:induction false} TurnsClear(w: seq<Tid>, events: Bits, info: map<Tid, Info>, b: nat)
    requires Distinct(w)
    ensures b in EventsAfterTurns(w, events, info) <==> b in events && !ClearedBy(w, Turns(w, events, info), info, b)
  {
    if w != [] {
      var i := InfoOf(info, w[0]);
      var p := Poll(events, i);
      var turns, rest := Turns(w, events, info), Turns(w[1..], p.events, info);
      TurnsClear(w[1..], p.events, info, b);
      TurnsServe(w[1..], p.events, info);
      assert w[0] !in w[1..];
      assert !p.ok ==> p.events == events;
      assert w[0] in turns <==> p.ok;
      hide Turns, EventsAfterTurns;
      if ClearedBy(w[1..], rest, info, b) {
        var t :| t in w[1..] && t in rest && InfoOf(info, t).option.clear && b in InfoOf(info, t).bits;
        assert t in w && t in turns;
      }
      if ClearedBy(w, turns, info, b) {
        var t :| t in w && t in turns && InfoOf(info, t).option.clear && b in InfoOf(info, t).bits;
        if t != w[0] { assert t in w[1..] && t in rest; }
      }
    }
  }

  lemma FirstTurn(w: seq<Tid>, events: Bits, info: map<Tid, Info>)
    requires Distinct(w) && w != [] && (InfoOf(info, w[0]).option.all || InfoOf(info, w[0]).option.any)
    ensures var i := InfoOf(info, w[0]);
            w[0] in Turns(w, events, info) <==> if i.option.all then i.bits <= events else exists b | b in i.bits :: b in events
  {
    PollMeans(events, InfoOf(info, w[0]));
    TurnsServe(w[1..], events, info);
    hide Poll;
  }

  lemma ReceiveKeeps(s: EventState, t: Tid, want: Info, wait: bool)
    requires Inv(s) && Can(s, Receive(t, want, wait))
    ensures Inv(ReceiveStep(s, t, want, wait))
  {
    SuspendMembers(s.waiters, t, s.flag, s.prio);
    var r := ReceiveStep(s, t, want, wait);
    if Satisfied(s.events, want) {
      assert Poll(s.events, want).events <= s.events;
      forall u | u in r.waiters ensures !Satisfied(r.events, InfoOf(r.info, u)) {
        if Satisfied(r.events, InfoOf(s.info, u)) { SatisfiedMonotone(r.events, s.events, InfoOf(s.info, u)); }
      }
    } else {
      hide Suspend, Satisfied;
    }
  }

  lemma StepKeeps(s: EventState, e: Event)
    requires Inv(s) && Can(s, e)
    ensures Inv(Next(s, e))
  {
    hide Satisfied;
    match e
    case Send(bits) => SendKeeps(s, bits);
    case Receive(t, want, wait) => ReceiveKeeps(s, t, want, wait);
    case Timeout(t) => WithoutMembers(s.waiters, t);
    case _ =>
  }

  predicate Runs(s: EventState, es: seq<Event>)
    decreases |es|
  {
    es == [] || (Can(s, es[0]) && Runs(Next(s, es[0]), es[1..]))
  }

  function After(s: EventState, es: seq<Event>): EventState
    decreases |es|
  {
    if es == [] then s else After(Next(s, es[0]), es[1..])
  }

  lemma {:induction false} AnyRun(s: EventState, es: seq<Event>)
    requires Inv(s) && Runs(s, es)
    ensures Inv(After(s, es))
    decreases |es|
  {
    if es != [] {
      StepKeeps(s, es[0]);
      hide Inv, Can, Next;
      AnyRun(Next(s, es[0]), es[1..]);
    }
  }

  /** The other steps.  A send of no bits changes nothing; a timeout takes one thread off the list;
      a thread that goes on has used up its grant; a reset empties list and set and takes back no
      grant. */
  lemma RestAnswers(s: EventState, t: Tid)
    ensures Next(s, Send({})) == s
    ensures t in s.waiters ==> var r := Next(s, Timeout(t)); Leaves(s.waiters, r.waiters, t) && r == s.(waiters := r.waiters)
    ensures var r := Next(s, Resume(t));
            && t !in r.granted && r == s.(granted := r.granted)
            && forall u | u != t && u in s.granted :: u in r.granted && r.granted[u] == s.granted[u]
    ensures var r := Next(s, Reset); r.waiters == [] && r.events == {} && r.granted == s.granted
  {
    if t in s.waiters { WithoutLeaves(s.waiters, t); }
    hide Without;
  }

  /** After every run of sends, receives, timeouts and resets.  A thread that sleeps misses one of
      its bits if it asked for all of them, and all of them otherwise.  A woken thread holds its
      grant: all bits it asked for with AND, and else one at least of them and no other. */
  lemma EveryRunFromInit(flag: Flag, prio: map<Tid, int>, es: seq<Event>, t: Tid)
    requires Runs(Init(flag, prio), es)
    ensures var r := After(Init(flag, prio), es);
            && (t in r.waiters ==>
                  && t in r.asked && InfoOf(r.info, t) == r.asked[t] && r.asked[t].bits != {}
                  && (r.asked[t].option.all ==> exists b | b in r.asked[t].bits :: b !in r.events)
                  && (!r.asked[t].option.all ==> forall b | b in r.asked[t].bits :: b !in r.events))
            && (t in r.granted ==>
                  && t in r.asked && InfoOf(r.info, t).bits == r.granted[t]
                  && (r.asked[t].option.all ==> r.granted[t] == r.asked[t].bits)
                  && (!r.asked[t].option.all ==> r.granted[t] != {} && r.granted[t] <= r.asked[t].bits))
  {
    AnyRun(Init(flag, prio), es);
    var r := After(Init(flag, prio), es);
    if t in r.waiters {
      assert Waiting(r.events, InfoOf(r.info, t), r.asked[t]);
      PollMeans(r.events, r.asked[t]);
    }
  }
}

/** The event object of the kernel. */
module EventObject {
  import opened WaitList
  import opened Sequences
  import opened EventModel

  /** `whole` is what a scan amounts to that kept `done` and has `rest` to come. */
  ghost predicate ScannedFrom(whole: Scanned, done: seq<Tid>, rest: Scanned) {
    whole.kept == done + rest.kept && whole.events == rest.events && whole.info == rest.info
  }

  lemma ScanHead(w: seq<Tid>, events: Bits, info: map<Tid, Info>)
    requires w != [] && w[0] in info
    ensures var i := info[w[0]]; var j := Received(events, i);
            if Satisfied(events, i) then
              var q := Scan(w[1..], Cleared(events, j), info[w[0] := j]);
              Scan(w, events, info) == q.(served := [w[0]] + q.served)
            else
              var q := Scan(w[1..], events, info);
              Scan(w, events, info) == q.(kept := [w[0]] + q.kept)
  {
    hide Satisfied, Received, Cleared;
  }

  lemma ScanNone(events: Bits, info: map<Tid, Info>)
    ensures Scan([], events, info) == Scanned([], events, info, [])
  {
  }

  class KernelEvent {
    const flag: Flag
    var events: Bits
    const waiters: WaitQueue
    var info: map<Tid, Info>

    /** The object is in this state of the specification, whose `granted` it does not store. */
    ghost predicate Matches(s: EventState)
      reads this, waiters
    {
      && flag == s.flag && events == s.events && waiters.list == s.waiters && info == s.info
      && Distinct(s.waiters) && forall t | t in s.waiters :: t in info
    }

    constructor (flag: Flag)
      ensures forall prio :: Matches(Init(flag, prio))
      ensures fresh(waiters)
    {
      this.flag := flag;
      events := {};
      waiters := new WaitQueue();
      info := map[];
    }

    /** rt_event_send's test of one waiting thread, and what waking it stores. */
    method Offer(t: Tid) returns (satisfied: bool)
      requires t in info
      modifies this`events, this`info
      ensures satisfied == Satisfied(old(events), old(info)[t])
      ensures satisfied ==> var j := Received(old(events), old(info)[t]);
                            info == old(info)[t := j] && events == Cleared(old(events), j)
      ensures !satisfied ==> info == old(info) && events == old(events)
      ensures var i := old(info)[t];
              && (i.option.all ==> (satisfied <==> i.bits <= old(events)))
              && (!i.option.all && i.option.any ==> (satisfied <==> exists b | b in i.bits :: b in old(events)))
              && (satisfied && i.option.all ==> info[t].bits == i.bits)
              && (satisfied && !i.option.all ==> forall b :: b in info[t].bits <==> b in i.bits && b in old(events))
              && (forall b :: b in events <==> b in old(events) && !(satisfied && i.option.clear && b in info[t].bits))
    {
      if info[t].option.all || info[t].option.any { PollMeans(events, info[t]); }
      satisfied := false;
      if info[t].option.all {
        satisfied := info[t].bits * events == info[t].bits;
        assert info == info[t := info[t]];
      } else if info[t].option.any {
        if info[t].bits * events != {} {
          info := info[t := info[t].(bits := info[t].bits * events)];
          satisfied := true;
        }
      }
      if satisfied && info[t].option.clear {
        events := events - info[t].bits;
      }
    }

    /** rt_event_send: false is the error return. */
    method Send(bits: Bits, ghost s: EventState) returns (ok: bool)
      requires Matches(s)
      modifies this, waiters
      ensures ok == (bits != {})
      ensures Matches(Next(s, Event.Send(bits)))
      ensures !ok ==> events == old(events) && waiters.list == old(waiters.list) && info == old(info)
      ensures events <= old(events) + bits && forall t | t in waiters.list :: t in old(waiters.list)
    {
      hide Satisfied, Received, Cleared, Scan, Turns;
      ScanLeavesUnsatisfied(s.waiters, s.events + bits, s.info);
      if bits == {} {
        return false;
      }
      events := events + bits;
      ghost var whole := Scan(waiters.list, events, info);
      var n := 0;
      assert waiters.list[0..] == waiters.list && waiters.list[..0] == [];
      while n < |waiters.list|
        invariant 0 <= n <= |waiters.list|
        invariant forall t | t in waiters.list :: t in info
        invariant ScannedFrom(whole, waiters.list[..n], Scan(waiters.list[n..], events, info))
        decreases |waiters.list| - n
      {
        var t := waiters.list[n];
        ghost var done, rest := waiters.list[..n], waiters.list[n..];
        ScanHead(rest, events, info);
        var satisfied := Offer(t);
        if satisfied {
          waiters.RemoveAt(n);
          assert waiters.list[n..] == rest[1..] && waiters.list[..n] == done;
        } else {
          assert waiters.list[n + 1..] == rest[1..] && waiters.list[..n + 1] == done + [t];
          n := n + 1;
        }
      }
      ScanNone(events, info);
      assert waiters.list[n..] == [] && waiters.list[..n] == waiters.list;
      return true;
    }

    /** The critical section of rt_event_recv. */
    method Receive(t: Tid, want: Info, wait: bool, prio: map<Tid, int>, ghost s: EventState) returns (o: Outcome)
      requires Matches(s) && prio == s.prio && Can(s, Event.Receive(t, want, wait))
      modifies this, waiters
      ensures Matches(Next(s, Event.Receive(t, want, wait)))
      ensures o.Error? <==> want.bits == {}
      ensures o == Answer(old(events), want, wait)
      ensures o.Asleep? <==> t in waiters.list
      ensures var met := if want.option.all then want.bits <= old(events) else exists b | b in want.bits :: b in old(events);
              && (o.Got? <==> want.bits != {} && met) && (o.Asleep? <==> want.bits != {} && !met && wait)
              && (o.Got? ==> forall b :: b in o.recved <==> b in want.bits && b in old(events))
              && (forall b :: b in events <==> b in old(events) && !(o.Got? && want.option.clear && b in want.bits))
      ensures if o.Asleep? then Enters(old(waiters.list), waiters.list, t, flag, prio) else waiters.list == old(waiters.list)
    {
      ReceiveAnswers(s, t, want, wait);
      if want.bits == {} {
        return Error;
      }
      var satisfied := false;
      if want.option.all {
        satisfied := events * want.bits == want.bits;
      } else {
        satisfied := events * want.bits != {};
      }
      assert satisfied == Satisfied(events, want);
      if satisfied {
        o := Got(events * want.bits);
        if want.option.clear {
          events := events - want.bits;
        }
      } else if !wait {
        o := TimedOut;
      } else {
        info := info[t := want];
        SuspendMembers(waiters.list, t, flag, prio);
        waiters.SuspendThread(t, flag, prio);
        o := Asleep;
      }
    }

    /** The timer of a waiting thread fires. */
    method Timeout(t: Tid, ghost s: EventState)
      requires Matches(s)
      modifies waiters
      ensures Matches(Next(s, Event.Timeout(t)))
      ensures if t in old(waiters.list) then Leaves(old(waiters.list), waiters.list, t) else waiters.list == old(waiters.list)
    {
      hide Without;
      WithoutMembers(waiters.list, t);
      waiters.Remove(t);
    }

    method Reset(ghost s: EventState) returns (woken: seq<Tid>)
      requires Matches(s)
      modifies this`events, waiters
      ensures Matches(Next(s, Event.Reset)) && woken == s.waiters
      ensures events == {} && waiters.list == [] && woken == old(waiters.list)
    {
      woken := waiters.ResumeAll();
      events := {};
    }
  }
}
