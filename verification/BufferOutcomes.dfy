/**
 What the calls of Monitor/linked_buffer.cpp return, as a function of the actions alone. The
 specification is an atomic bounded queue: an add takes effect at its AddLink, a remove at its
 RemoveUnlink, and a call returns what that moment decided. Every run of the protocol has the
 queue and the outcomes of this specification.
 */
module BufferOutcomes {
  import opened Wrappers
  import opened BufferProtocol

  function Before(acts: seq<Action>): seq<Action>
    requires acts != []
  {
    acts[..|acts| - 1]
  }

  function Last(acts: seq<Action>): Action
    requires acts != []
  {
    acts[|acts| - 1]
  }

  /** The data of the thread's latest add. */
  function Asked(acts: seq<Action>, t: Tid): Ptr {
    if acts == [] then NULL
    else if Last(acts).AddAcquire? && Last(acts).t == t then Last(acts).data
    else Asked(Before(acts), t)
  }

  /** The atomic bounded queue. */
  function Queue(maxSize: nat, acts: seq<Action>): seq<Ptr> {
    if acts == [] then []
    else
      var q := Queue(maxSize, Before(acts));
      match Last(acts)
      case AddLink(t, mallocOk) => if |q| < maxSize && mallocOk then q + [Asked(Before(acts), t)] else q
      case RemoveUnlink(_) => if q == [] then [] else q[1..]
      case _ => q
  }

  /** Whether the thread's latest add found room and memory. */
  function Linked(maxSize: nat, acts: seq<Action>, t: Tid): bool {
    if acts == [] then false
    else if Last(acts).AddLink? && Last(acts).t == t then
      |Queue(maxSize, Before(acts))| < maxSize && Last(acts).mallocOk
    else Linked(maxSize, Before(acts), t)
  }

  /** What the thread's latest remove found at the front, NULL if the queue was empty. */
  function Taken(maxSize: nat, acts: seq<Action>, t: Tid): Ptr {
    if acts == [] then NULL
    else if Last(acts) == RemoveUnlink(t) then
      var q := Queue(maxSize, Before(acts));
      if q == [] then NULL else q[0]
    else Taken(maxSize, Before(acts), t)
  }

  /** What an action that ends a call makes it return. */
  function OutcomeOf(maxSize: nat, before: seq<Action>, a: Action): seq<Outcome> {
    match a
    case AddRelease(t) => [Added(t, Asked(before, t), Linked(maxSize, before, t))]
    case WaitFail(t) => [Removed(t, NULL, false)]
    case RemoveRelease(t) => [Removed(t, Taken(maxSize, before, t), true)]
    case _ => []
  }

  function Outcomes(maxSize: nat, acts: seq<Action>): seq<Outcome> {
    if acts == [] then []
    else Outcomes(maxSize, Before(acts)) + OutcomeOf(maxSize, Before(acts), Last(acts))
  }

  // ----- the protocol has these outcomes

  /** A thread inside a call carries what the actions so far say of it. */
  ghost predicate Carries(maxSize: nat, acts: seq<Action>, t: Tid, pc: Pc) {
    match pc
    case AddLocked(data) => data == Asked(acts, t)
    case AddLinked(data) => data == Asked(acts, t) && Linked(maxSize, acts, t)
    case AddReturning(data, ok) => data == Asked(acts, t) && ok == Linked(maxSize, acts, t)
    case RemoveReturning(ret, _) => ret == Taken(maxSize, acts, t)
    case _ => true
  }

  ghost predicate Refines(maxSize: nat, acts: seq<Action>, s: State) {
    && s.maxSize == maxSize && s.queue == Queue(maxSize, acts) && s.log == Outcomes(maxSize, acts)
    && forall t :: t in s.pcs ==> Carries(maxSize, acts, t, s.pcs[t])
  }

  /** What one more action changes for one thread. */
  lemma OneMore(maxSize: nat, before: seq<Action>, a: Action, t: Tid)
    ensures var acts := before + [a];
      && Before(acts) == before && Last(acts) == a
      && Asked(acts, t) == (if a.AddAcquire? && a.t == t then a.data else Asked(before, t))
      && Linked(maxSize, acts, t) ==
         (if a.AddLink? && a.t == t then |Queue(maxSize, before)| < maxSize && a.mallocOk
          else Linked(maxSize, before, t))
      && Taken(maxSize, acts, t) ==
         (if a == RemoveUnlink(t) then if Queue(maxSize, before) == [] then NULL else Queue(maxSize, before)[0]
          else Taken(maxSize, before, t))
  {
    assert (before + [a])[..|before + [a]| - 1] == before;
  }

  lemma StepCarries(maxSize: nat, before: seq<Action>, s: State, a: Action, t: Tid)
    requires Refines(maxSize, before, s) && Enabled(s, a) && t in Step(s, a).pcs
    ensures Carries(maxSize, before + [a], t, Step(s, a).pcs[t])
  {
    OneMore(maxSize, before, a, t);
    if t != a.t {
      assert Carries(maxSize, before, t, s.pcs[t]);
    } else if t in s.pcs {
      assert Carries(maxSize, before, t, s.pcs[t]);
    }
  }

  lemma StepQueueAndLog(maxSize: nat, before: seq<Action>, s: State, a: Action)
    requires Refines(maxSize, before, s) && Enabled(s, a)
    ensures Step(s, a).queue == Queue(maxSize, before + [a])
    ensures Step(s, a).log == Outcomes(maxSize, before + [a])
  {
    OneMore(maxSize, before, a, a.t);
    if a.t in s.pcs {
      assert Carries(maxSize, before, a.t, s.pcs[a.t]);
    }
  }

  /**
   Every run of any number of producers and consumers refines the atomic bounded queue: the list
   is its content, and each call has returned, once and in this order, what the queue decided at
   the call's one moment: an add TRUE exactly when it found room and memory, with the data it was
   called with; a remove the item at the front, or NULL for a failed wait.
   */
  lemma {:induction false} RunRefinesQueue(maxSize: nat, acts: seq<Action>)
    requires Feasible(Init(maxSize), acts)
    ensures Refines(maxSize, acts, Run(Init(maxSize), acts))
  {
    if acts != [] {
      var before, a := Before(acts), Last(acts);
      RunRefinesQueue(maxSize, before);
      assert before + [a] == acts;
      var s := Run(Init(maxSize), before);
      StepQueueAndLog(maxSize, before, s, a);
      forall t | t in Step(s, a).pcs ensures Carries(maxSize, acts, t, Step(s, a).pcs[t]) {
        StepCarries(maxSize, before, s, a, t);
      }
    }
  }

  // ----- how many calls returned what

  /** The adds by a thread that returned. */
  function AddsBy(log: seq<Outcome>, t: Tid): nat {
    if log == [] then 0
    else
      var o := log[|log| - 1];
      AddsBy(log[..|log| - 1], t) + if o.Added? && o.t == t then 1 else 0
  }

  /** The removes by a thread that returned after a successful wait. */
  function TakesBy(log: seq<Outcome>, t: Tid): nat {
    if log == [] then 0
    else
      var o := log[|log| - 1];
      TakesBy(log[..|log| - 1], t) + if o.Removed? && o.woke && o.t == t then 1 else 0
  }

  /** Each call that ended returned once: a remove reports a failed wait exactly as often as a wait
      of its thread failed, and so on for the other two ways to end. */
  ghost predicate OnceEach(log: seq<Outcome>, acts: seq<Action>, t: Tid) {
    && multiset(log)[Removed(t, NULL, false)] == multiset(acts)[WaitFail(t)]
    && AddsBy(log, t) == multiset(acts)[AddRelease(t)]
    && TakesBy(log, t) == multiset(acts)[RemoveRelease(t)]
  }

  /** The outcome is of the kind that the action ends a call with. */
  ghost predicate EndsWith(a: Action, one: seq<Outcome>) {
    match a
    case AddRelease(t) => |one| == 1 && one[0].Added? && one[0].t == t
    case WaitFail(t) => one == [Removed(t, NULL, false)]
    case RemoveRelease(t) => |one| == 1 && one[0].Removed? && one[0].woke && one[0].t == t
    case _ => one == []
  }

  lemma CountOutcome(log: seq<Outcome>, o: Outcome, t: Tid)
    ensures AddsBy(log + [o], t) == AddsBy(log, t) + (if o.Added? && o.t == t then 1 else 0)
    ensures TakesBy(log + [o], t) == TakesBy(log, t) + (if o.Removed? && o.woke && o.t == t then 1 else 0)
  {
    assert (log + [o])[..|log + [o]| - 1] == log;
  }

  lemma CountMember<T>(s: seq<T>, x: T, y: T)
    ensures multiset(s + [x])[y] == multiset(s)[y] + if x == y then 1 else 0
  {
  }

  lemma OneMoreOutcome(log: seq<Outcome>, one: seq<Outcome>, before: seq<Action>, a: Action, t: Tid)
    requires OnceEach(log, before, t) && EndsWith(a, one)
    ensures OnceEach(log + one, before + [a], t)
  {
    CountMember(before, a, WaitFail(t));
    CountMember(before, a, AddRelease(t));
    CountMember(before, a, RemoveRelease(t));
    if one == [] {
      assert log + one == log;
    } else {
      var o := one[0];
      assert one == [o];
      CountOutcome(log, o, t);
      CountMember(log, o, Removed(t, NULL, false));
    }
  }

  lemma {:induction false} OneOutcomeEach(maxSize: nat, acts: seq<Action>, t: Tid)
    ensures OnceEach(Outcomes(maxSize, acts), acts, t)
  {
    if acts != [] {
      var before, a := Before(acts), Last(acts);
      OneOutcomeEach(maxSize, before, t);
      OneMoreOutcome(Outcomes(maxSize, before), OutcomeOf(maxSize, before, a), before, a, t);
      assert before + [a] == acts;
    }
  }

  /** Over every run, then: the calls of a thread that timed out, and nothing else, return NULL
      without having woken; every add and every woken remove that ended returned once. */
  lemma CallsReturnOnce(maxSize: nat, acts: seq<Action>, t: Tid)
    requires Feasible(Init(maxSize), acts)
    ensures OnceEach(Run(Init(maxSize), acts).log, acts, t)
  {
    RunRefinesQueue(maxSize, acts);
    OneOutcomeEach(maxSize, acts, t);
  }

  /** The removes by a thread that returned NULL. */
  function NullsBy(log: seq<Outcome>, t: Tid): nat {
    if log == [] then 0
    else
      var o := log[|log| - 1];
      NullsBy(log[..|log| - 1], t) + if o.Removed? && o.t == t && o.ret == NULL then 1 else 0
  }

  lemma {:induction false} NullsAreFailedWaits(log: seq<Outcome>, t: Tid)
    requires forall i :: 0 <= i < |log| && log[i].Removed? ==> (log[i].ret == NULL <==> !log[i].woke)
    ensures NullsBy(log, t) == multiset(log)[Removed(t, NULL, false)]
  {
    if log != [] {
      NullsAreFailedWaits(log[..|log| - 1], t);
      assert log == log[..|log| - 1] + [log[|log| - 1]];
    }
  }

  /** For non-null data, a thread gets NULL exactly as often as its wait timed out or failed. */
  lemma NullExactlyOnTimeout(maxSize: nat, acts: seq<Action>, t: Tid)
    requires Feasible(Init(maxSize), acts) && NonNullAdds(acts)
    ensures NullsBy(Run(Init(maxSize), acts).log, t) == multiset(acts)[WaitFail(t)]
  {
    NullMeansWaitFailed(maxSize, acts);
    NullsAreFailedWaits(Run(Init(maxSize), acts).log, t);
    CallsReturnOnce(maxSize, acts, t);
  }

  // ----- the unsuccessful calls can be made

  function RefusedCall(u: Tid, data: Ptr, mallocOk: bool): seq<Action> {
    [AddAcquire(u, data)] + [AddLink(u, mallocOk)] + [AddRelease(u)]
  }

  /** With the lock free, an add to a full buffer or without memory returns FALSE and changes
      nothing else. */
  lemma AddRefused(s: State, u: Tid, data: Ptr, mallocOk: bool)
    requires s.owner.None? && u !in s.pcs && (|s.queue| >= s.maxSize || !mallocOk)
    ensures Feasible(s, RefusedCall(u, data, mallocOk))
    ensures Run(s, RefusedCall(u, data, mallocOk)) == s.(log := s.log + [Added(u, data, false)])
  {
    var a1, a2, a3 := AddAcquire(u, data), AddLink(u, mallocOk), AddRelease(u);
    RunOne(s, a1);
    RunSnoc(s, [a1], a2);
    RunSnoc(s, [a1] + [a2], a3);
    assert Run(s, RefusedCall(u, data, mallocOk)).pcs == s.pcs;
  }

  /** With the event set, a wait may succeed at any time: it does not ask for the lock. */
  lemma WaitIgnoresTheLock(s: State, u: Tid)
    requires u !in s.pcs && s.evt
    ensures Feasible(s, [WaitSuccess(u)])
    ensures Run(s, [WaitSuccess(u)]) == s.(evt := false, pcs := s.pcs[u := Woken])
  {
    RunOne(s, WaitSuccess(u));
  }

  /** A wait may time out at any time, whatever the others do. */
  lemma WaitMayFail(s: State, u: Tid)
    requires u !in s.pcs
    ensures Feasible(s, [WaitFail(u)])
    ensures Run(s, [WaitFail(u)]) == s.(log := s.log + [Removed(u, NULL, false)])
  {
    RunOne(s, WaitFail(u));
  }
}
