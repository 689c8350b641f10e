/** Threads that sleep on one wait list and try again once woken: the retry loops of mailbox and
    memory pool. */
module Sleepers {
  import opened Numbers
  import opened Sequences
  import opened WaitList

  datatype Phase = Awake | Asleep | Woken

  /** What each thread is doing; absent threads are awake. */
  type Phases = map<Tid, Phase>

  function PhaseOf(ph: Phases, t: Tid): Phase {
    if t in ph then ph[t] else Awake
  }

  /** The list holds exactly the sleeping threads, each once. */
  ghost predicate Agree(list: seq<Tid>, ph: Phases) {
    Distinct(list) && forall t :: t in list <==> PhaseOf(ph, t).Asleep?
  }

  /** Threads that were taken off the list and have still to try again. */
  function WokenSet(ph: Phases): set<Tid> {
    set t | t in ph && ph[t].Woken?
  }

  function WakeFirst(list: seq<Tid>, ph: Phases): Phases {
    if list == [] then ph else ph[list[0] := Woken]
  }

  function RestOf(list: seq<Tid>): seq<Tid> {
    if list == [] then [] else list[1..]
  }

  /** RESET lets every sleeper return with an error. */
  function LetGo(ph: Phases): Phases {
    map t | t in ph :: if ph[t].Asleep? then Awake else ph[t]
  }

  lemma WokenCount(ph: Phases, t: Tid, p: Phase)
    ensures |WokenSet(ph[t := p])| == |WokenSet(ph)| - Bit(PhaseOf(ph, t).Woken?) + Bit(p.Woken?)
  {
    var a := WokenSet(ph);
    assert WokenSet(ph[t := p]) == if p.Woken? then a + {t} else a - {t};
    assert t in a <==> PhaseOf(ph, t).Woken?;
    hide WokenSet;
    if t in a { assert a + {t} == a; }
  }

  lemma SleepAgree(list: seq<Tid>, list': seq<Tid>, ph: Phases, t: Tid)
    requires Agree(list, ph) && t !in list
    requires Distinct(list') && forall x :: x in list' <==> x in list || x == t
    ensures Agree(list', ph[t := Asleep])
  {
  }

  lemma AwakeAgree(list: seq<Tid>, ph: Phases, t: Tid)
    requires Agree(list, ph) && t !in list
    ensures Agree(list, ph[t := Awake])
  {
  }

  lemma WakeAgree(list: seq<Tid>, ph: Phases)
    requires Agree(list, ph)
    ensures Agree(RestOf(list), WakeFirst(list, ph))
    ensures |WokenSet(WakeFirst(list, ph))| == |WokenSet(ph)| + Bit(list != [])
  {
    if list != [] {
      assert list[0] in list;
      assert forall t :: t in list <==> t == list[0] || t in list[1..];
      hide WokenSet;
      WokenCount(ph, list[0], Woken);
    }
  }

  lemma TimeoutAgree(list: seq<Tid>, ph: Phases, t: Tid)
    requires Agree(list, ph) && t in list
    ensures Agree(Without(list, t), ph[t := Awake])
    ensures |WokenSet(ph[t := Awake])| == |WokenSet(ph)|
  {
    WithoutMembers(list, t);
    WokenCount(ph, t, Awake);
    hide Without, WokenSet;
  }

  lemma LetGoAgree(list: seq<Tid>, ph: Phases)
    requires Agree(list, ph)
    ensures Agree([], LetGo(ph)) && WokenSet(LetGo(ph)) == WokenSet(ph)
  {
  }
}
