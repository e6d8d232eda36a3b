/**
 The concurrent protocol of Monitor/linked_buffer.cpp, as a state machine.

 Any number of producers (buffer_add_tail) and consumers (buffer_remove_head) interleave.
 Everything between acquiring and releasing the lock that only the lock holder can observe
 is one step; SetEvent is a step of its own because the wait of a consumer, which happens
 outside the lock, may fall between the size increment and SetEvent.
 */
module BufferProtocol {
  import opened Wrappers

  type Tid = nat

  /** A `void*`; consumers read NULL as "nothing delivered". */
  type Ptr = nat
  const NULL: Ptr := 0

  /** Where a thread that is inside a call stands. */
  datatype Pc =
    | AddLocked(data: Ptr)               // holds the lock, nothing linked yet
    | AddLinked(data: Ptr)               // linked and counted, event not yet set
    | AddReturning(data: Ptr, ok: bool)  // about to release the lock and return
    | Woken                              // wait succeeded, lock not yet taken
    | RemoveLocked                       // holds the lock, nothing unlinked yet
    | RemoveReturning(ret: Ptr, found: bool)
  {
    predicate HoldsLock() { !Woken? }
    predicate OwesRemoval() { Woken? || RemoveLocked? }
  }

  /** What a finished call returned. `woke` tells whether the wait of a remove succeeded. */
  datatype Outcome =
    | Added(t: Tid, data: Ptr, ok: bool)
    | Removed(t: Tid, ret: Ptr, woke: bool)

  datatype State = State(
    maxSize: nat,
    queue: seq<Ptr>,
    evt: bool,
    owner: Option<Tid>,
    pcs: map<Tid, Pc>,
    log: seq<Outcome>)

  datatype Action =
    | AddAcquire(t: Tid, data: Ptr)
    | AddLink(t: Tid, mallocOk: bool)
    | AddSignal(t: Tid)
    | AddRelease(t: Tid)
    | WaitFail(t: Tid)       // timeout or failed wait
    | WaitSuccess(t: Tid)
    | RemoveAcquire(t: Tid)
    | RemoveUnlink(t: Tid)
    | RemoveRelease(t: Tid)

  function Init(maxSize: nat): State {
    State(maxSize, [], false, None, map[], [])
  }

  predicate Enabled(s: State, a: Action) {
    match a
    case AddAcquire(t, _) => t !in s.pcs && s.owner.None?
    case AddLink(t, _) => t in s.pcs && s.pcs[t].AddLocked?
    case AddSignal(t) => t in s.pcs && s.pcs[t].AddLinked?
    case AddRelease(t) => t in s.pcs && s.pcs[t].AddReturning?
    case WaitFail(t) => t !in s.pcs
    case WaitSuccess(t) => t !in s.pcs && s.evt
    case RemoveAcquire(t) => t in s.pcs && s.pcs[t].Woken? && s.owner.None?
    case RemoveUnlink(t) => t in s.pcs && s.pcs[t].RemoveLocked?
    case RemoveRelease(t) => t in s.pcs && s.pcs[t].RemoveReturning?
  }

  function Step(s: State, a: Action): State
    requires Enabled(s, a)
  {
    match a
    case AddAcquire(t, data) => s.(owner := Some(t), pcs := s.pcs[t := AddLocked(data)])
    case AddLink(t, mallocOk) =>
      var data := s.pcs[t].data;
      if |s.queue| >= s.maxSize || !mallocOk then
        s.(pcs := s.pcs[t := AddReturning(data, false)])
      else
        s.(queue := s.queue + [data], pcs := s.pcs[t := AddLinked(data)])
    case AddSignal(t) => s.(evt := true, pcs := s.pcs[t := AddReturning(s.pcs[t].data, true)])
    case AddRelease(t) =>
      s.(owner := None, pcs := s.pcs - {t}, log := s.log + [Added(t, s.pcs[t].data, s.pcs[t].ok)])
    case WaitFail(t) => s.(log := s.log + [Removed(t, NULL, false)])
    case WaitSuccess(t) => s.(evt := false, pcs := s.pcs[t := Woken])
    case RemoveAcquire(t) => s.(owner := Some(t), pcs := s.pcs[t := RemoveLocked])
    case RemoveUnlink(t) =>
      if s.queue == [] then
        s.(pcs := s.pcs[t := RemoveReturning(NULL, false)])
      else
        s.(queue := s.queue[1..], pcs := s.pcs[t := RemoveReturning(s.queue[0], true)])
    case RemoveRelease(t) =>
      s.(owner := None, pcs := s.pcs - {t}, log := s.log + [Removed(t, s.pcs[t].ret, true)])
  }

  /** Every action can be taken in turn, starting from `s`. */
  predicate Feasible(s: State, acts: seq<Action>)
    decreases |acts|, 0
  {
    acts == [] ||
    (Feasible(s, acts[..|acts| - 1]) && Enabled(Run(s, acts[..|acts| - 1]), acts[|acts| - 1]))
  }

  /** The state after a run. */
  function Run(s: State, acts: seq<Action>): State
    requires Feasible(s, acts)
    decreases |acts|, 1
  {
    if acts == [] then s else Step(Run(s, acts[..|acts| - 1]), acts[|acts| - 1])
  }

  /** The number of SetEvent calls of a run that found the event already set. */
  function Hits(s: State, acts: seq<Action>): nat
    requires Feasible(s, acts)
  {
    if acts == [] then 0
    else
      var before := acts[..|acts| - 1];
      Hits(s, before) + if acts[|acts| - 1].AddSignal? && Run(s, before).evt then 1 else 0
  }

  // ----- what the accounting speaks of

  function Owing(pcs: map<Tid, Pc>): set<Tid> {
    set t | t in pcs && pcs[t].OwesRemoval()
  }

  /** The event, if set, plus the consumers past the wait that have not unlinked yet. */
  function Pending(s: State): nat {
    (if s.evt then 1 else 0) + |Owing(s.pcs)|
  }

  /** 1 while a producer has linked a node and not yet set the event. */
  function Unsignalled(s: State): nat {
    if s.owner.Some? && s.owner.value in s.pcs && s.pcs[s.owner.value].AddLinked? then 1 else 0
  }

  /** The data of the adds that returned TRUE, in the order they returned. */
  function Accepted(log: seq<Outcome>): seq<Ptr> {
    if log == [] then []
    else
      var o := log[|log| - 1];
      Accepted(log[..|log| - 1]) + if o.Added? && o.ok then [o.data] else []
  }

  /** What the removes whose wait succeeded returned, in the order they returned. */
  function Delivered(log: seq<Outcome>): seq<Ptr> {
    if log == [] then []
    else
      var o := log[|log| - 1];
      Delivered(log[..|log| - 1]) + if o.Removed? && o.woke then [o.ret] else []
  }

  /** The item the lock holder has linked, if its add has not returned yet. */
  function Entering(s: State): seq<Ptr> {
    if s.owner.None? || s.owner.value !in s.pcs then []
    else
      match s.pcs[s.owner.value]
      case AddLinked(data) => [data]
      case AddReturning(data, ok) => if ok then [data] else []
      case _ => []
  }

  /** The item the lock holder has unlinked, if its remove has not returned yet. */
  function Leaving(s: State): seq<Ptr> {
    if s.owner.Some? && s.owner.value in s.pcs && s.pcs[s.owner.value].RemoveReturning?
    then [s.pcs[s.owner.value].ret] else []
  }

  // ----- the invariant

  ghost predicate LockInv(s: State) {
    && (forall t :: t in s.pcs ==> (s.pcs[t].HoldsLock() <==> s.owner == Some(t)))
    && (s.owner.Some? ==> s.owner.value in s.pcs)
  }

  ghost predicate Accounting(s: State, hits: nat) {
    && |s.queue| == Pending(s) + Unsignalled(s) + hits
    && |s.queue| <= s.maxSize
    && (hits == 0 || hits < s.maxSize)
  }

  ghost predicate Fifo(s: State) {
    Delivered(s.log) + Leaving(s) + s.queue == Accepted(s.log) + Entering(s)
  }

  /** No remove is about to report an empty list. */
  ghost predicate NothingMissed(s: State) {
    forall t :: t in s.pcs && s.pcs[t].RemoveReturning? ==> s.pcs[t].found
  }

  ghost predicate Inv(s: State, hits: nat) {
    LockInv(s) && Accounting(s, hits) && Fifo(s) && NothingMissed(s)
  }

  /** How one thread's move changes the number of consumers that owe a removal. */
  lemma OwingAfterMove(pcs: map<Tid, Pc>, t: Tid, pc: Pc)
    ensures |Owing(pcs[t := pc])| ==
            |Owing(pcs - {t})| + (if pc.OwesRemoval() then 1 else 0)
    ensures |Owing(pcs)| ==
            |Owing(pcs - {t})| + (if t in pcs && pcs[t].OwesRemoval() then 1 else 0)
  {
    var others := Owing(pcs - {t});
    assert t !in others;
    assert Owing(pcs[t := pc]) == if pc.OwesRemoval() then others + {t} else others;
    assert Owing(pcs) == if t in pcs && pcs[t].OwesRemoval() then others + {t} else others;
  }

  lemma PendingAfter(s: State, a: Action)
    requires Enabled(s, a)
    ensures |Owing(Step(s, a).pcs)| ==
            |Owing(s.pcs)| + (if a.WaitSuccess? then 1 else if a.RemoveUnlink? then -1 else 0)
  {
    var pcs' := Step(s, a).pcs;
    if a.t in pcs' {
      OwingAfterMove(s.pcs, a.t, pcs'[a.t]);
      assert pcs' == s.pcs[a.t := pcs'[a.t]];
    } else {
      OwingAfterMove(s.pcs, a.t, Woken);
      assert pcs' == s.pcs - {a.t};
    }
  }

  /** A consumer that has woken and not yet unlinked finds a node: the NULL of an empty list
      is not reached. */
  lemma WokenConsumerFindsANode(s: State, hits: nat, t: Tid)
    requires Accounting(s, hits)
    requires t in s.pcs && s.pcs[t].OwesRemoval()
    ensures s.queue != []
  {
    assert t in Owing(s.pcs);
  }

  lemma LogGrows(log: seq<Outcome>, o: Outcome)
    ensures Accepted(log + [o]) == Accepted(log) + if o.Added? && o.ok then [o.data] else []
    ensures Delivered(log + [o]) == Delivered(log) + if o.Removed? && o.woke then [o.ret] else []
  {
    assert (log + [o])[..|log + [o]| - 1] == log;
  }

  /** An add that returns moves its item, if it linked one, from in flight to the log. */
  lemma AddReturnKeepsFifo(s: State, t: Tid)
    requires LockInv(s) && Fifo(s) && Enabled(s, AddRelease(t))
    ensures Fifo(Step(s, AddRelease(t)))
  {
    var s', pc := Step(s, AddRelease(t)), s.pcs[t];
    LogGrows(s.log, Added(t, pc.data, pc.ok));
    assert s.owner == Some(t);
    assert Leaving(s) == [] && Leaving(s') == [] && Entering(s') == [];
    assert Delivered(s'.log) == Delivered(s.log);
    if pc.ok {
      assert Accepted(s'.log) == Accepted(s.log) + Entering(s);
    } else {
      assert Accepted(s'.log) == Accepted(s.log) && Entering(s) == [];
    }
  }

  lemma RemoveReturnKeepsFifo(s: State, t: Tid)
    requires LockInv(s) && Fifo(s) && Enabled(s, RemoveRelease(t))
    ensures Fifo(Step(s, RemoveRelease(t)))
  {
    var s' := Step(s, RemoveRelease(t));
    LogGrows(s.log, Removed(t, s.pcs[t].ret, true));
    assert s.owner == Some(t);
    assert Leaving(s') == [] && Entering(s) == [] && Entering(s') == [];
    assert Delivered(s'.log) == Delivered(s.log) + Leaving(s);
    assert Accepted(s'.log) == Accepted(s.log);
  }

  lemma FailedWaitKeepsFifo(s: State, t: Tid)
    requires LockInv(s) && Fifo(s) && Enabled(s, WaitFail(t))
    ensures Fifo(Step(s, WaitFail(t)))
  {
    var s' := Step(s, WaitFail(t));
    LogGrows(s.log, Removed(t, NULL, false));
    assert Leaving(s') == Leaving(s) && Entering(s') == Entering(s);
    assert Delivered(s'.log) == Delivered(s.log) && Accepted(s'.log) == Accepted(s.log);
  }

  /** A linked node joins the queue and is in flight until its add returns. */
  lemma LinkKeepsFifo(s: State, t: Tid, mallocOk: bool)
    requires LockInv(s) && Fifo(s) && Enabled(s, AddLink(t, mallocOk))
    ensures Fifo(Step(s, AddLink(t, mallocOk)))
  {
    var s' := Step(s, AddLink(t, mallocOk));
    assert s.owner == Some(t);
    assert Leaving(s) == [] && Leaving(s') == [] && Entering(s) == [];
    assert Delivered(s.log) + Leaving(s) == Delivered(s.log) && Accepted(s.log) + Entering(s) == Accepted(s.log);
    calc {
      Delivered(s'.log) + Leaving(s') + s'.queue;
      Delivered(s.log) + (s.queue + Entering(s'));
      (Delivered(s.log) + s.queue) + Entering(s');
      Accepted(s'.log) + Entering(s');
    }
  }

  /** An unlinked node leaves the queue and is in flight until its remove returns. */
  lemma UnlinkKeepsFifo(s: State, t: Tid)
    requires LockInv(s) && Fifo(s) && Enabled(s, RemoveUnlink(t)) && s.queue != []
    ensures Fifo(Step(s, RemoveUnlink(t)))
  {
    var s' := Step(s, RemoveUnlink(t));
    assert s.owner == Some(t);
    assert Leaving(s) == [] && Entering(s) == [] && Entering(s') == [];
    assert Leaving(s') + s'.queue == s.queue;
    assert Delivered(s.log) + Leaving(s') + s'.queue == Delivered(s.log) + (Leaving(s') + s'.queue);
  }

  lemma StepKeepsFifo(s: State, a: Action)
    requires LockInv(s) && Fifo(s) && Enabled(s, a)
    requires a.RemoveUnlink? ==> s.queue != []
    ensures Fifo(Step(s, a))
  {
    match a
    case AddLink(t, mallocOk) => LinkKeepsFifo(s, t, mallocOk);
    case AddRelease(t) => AddReturnKeepsFifo(s, t);
    case RemoveUnlink(t) => UnlinkKeepsFifo(s, t);
    case RemoveRelease(t) => RemoveReturnKeepsFifo(s, t);
    case WaitFail(t) => FailedWaitKeepsFifo(s, t);
    case _ =>
      assert Leaving(Step(s, a)) == Leaving(s) && Entering(Step(s, a)) == Entering(s);
  }

  lemma StepKeepsLock(s: State, a: Action)
    requires LockInv(s) && Enabled(s, a)
    ensures LockInv(Step(s, a))
  {
  }

  lemma StepKeepsAccounting(s: State, hits: nat, a: Action)
    requires LockInv(s) && Accounting(s, hits) && Enabled(s, a)
    requires a.RemoveUnlink? ==> s.queue != []
    ensures Accounting(Step(s, a), if a.AddSignal? && s.evt then hits + 1 else hits)
  {
    PendingAfter(s, a);
  }

  lemma StepKeepsInv(s: State, hits: nat, a: Action)
    requires Inv(s, hits) && Enabled(s, a)
    ensures Inv(Step(s, a), if a.AddSignal? && s.evt then hits + 1 else hits)
  {
    if a.RemoveUnlink? {
      WokenConsumerFindsANode(s, hits, a.t);
    }
    StepKeepsLock(s, a);
    StepKeepsAccounting(s, hits, a);
    StepKeepsFifo(s, a);
  }

  /**
   In every run of any number of producers and consumers: the queue length is the pending
   wakeups, plus a linked but not yet signalled node, plus exactly the number of SetEvent calls
   that hit an already-set event; and what was delivered, followed by what is queued, is what
   was accepted, in order.
   */
  lemma {:induction false} RunKeepsInv(maxSize: nat, acts: seq<Action>)
    requires Feasible(Init(maxSize), acts)
    ensures Inv(Run(Init(maxSize), acts), Hits(Init(maxSize), acts))
    ensures Run(Init(maxSize), acts).maxSize == maxSize
  {
    if acts == [] {
      assert Owing(Init(maxSize).pcs) == {};
    } else {
      var before := acts[..|acts| - 1];
      RunKeepsInv(maxSize, before);
      StepKeepsInv(Run(Init(maxSize), before), Hits(Init(maxSize), before), acts[|acts| - 1]);
    }
  }

  /** Prefixes of a feasible run are feasible. */
  lemma {:induction false} FeasiblePrefix(s: State, acts: seq<Action>, n: nat)
    requires Feasible(s, acts) && n <= |acts|
    ensures Feasible(s, acts[..n])
  {
    if n == |acts| {
      assert acts[..n] == acts;
    } else {
      FeasiblePrefix(s, acts[..|acts| - 1], n);
      assert acts[..|acts| - 1][..n] == acts[..n];
    }
  }

  lemma {:induction false} HitsNeverDecrease(s: State, acts: seq<Action>, n: nat)
    requires Feasible(s, acts) && n <= |acts|
    ensures Feasible(s, acts[..n])
    ensures Hits(s, acts[..n]) <= Hits(s, acts)
  {
    FeasiblePrefix(s, acts, n);
    if n == |acts| {
      assert acts[..n] == acts;
    } else {
      HitsNeverDecrease(s, acts[..|acts| - 1], n);
      assert acts[..|acts| - 1][..n] == acts[..n];
    }
  }

  /** The queued items no wakeup stands for. */
  function Backlog(s: State): int {
    |s.queue| - Pending(s) - Unsignalled(s)
  }

  /** Items are never won back from the backlog: along a run it only grows. */
  lemma BacklogNeverShrinks(maxSize: nat, acts: seq<Action>, n: nat)
    requires Feasible(Init(maxSize), acts) && n <= |acts|
    ensures Feasible(Init(maxSize), acts[..n])
    ensures 0 <= Backlog(Run(Init(maxSize), acts[..n])) <= Backlog(Run(Init(maxSize), acts))
  {
    HitsNeverDecrease(Init(maxSize), acts, n);
    RunKeepsInv(maxSize, acts[..n]);
    RunKeepsInv(maxSize, acts);
  }

  /** Once every call has returned and the event is clear, exactly the coalesced signals are left
      behind as queued items. No wait succeeds until another add sets the event. */
  lemma QuiescentBacklog(maxSize: nat, acts: seq<Action>)
    requires Feasible(Init(maxSize), acts)
    ensures var s := Run(Init(maxSize), acts);
            s.pcs == map[] && !s.evt ==> |s.queue| == Hits(Init(maxSize), acts)
  {
    RunKeepsInv(maxSize, acts);
    var s := Run(Init(maxSize), acts);
    if s.pcs == map[] {
      assert Owing(s.pcs) == {};
    }
  }

  // ----- NULL from a remove

  /** All data handed to add in `acts` is non-null. */
  predicate NonNullAdds(acts: seq<Action>) {
    forall i :: 0 <= i < |acts| && acts[i].AddAcquire? ==> acts[i].data != NULL
  }

  ghost predicate NonNullState(s: State) {
    && (forall t :: t in s.pcs && (s.pcs[t].AddLocked? || s.pcs[t].AddLinked?) ==> s.pcs[t].data != NULL)
    && (forall t :: t in s.pcs && s.pcs[t].RemoveReturning? ==> s.pcs[t].ret != NULL)
    && NULL !in s.queue
    && (forall i :: 0 <= i < |s.log| && s.log[i].Removed? ==> (s.log[i].ret == NULL <==> !s.log[i].woke))
  }

  lemma StepKeepsNonNull(s: State, a: Action)
    requires NonNullState(s) && Enabled(s, a)
    requires a.AddAcquire? ==> a.data != NULL
    requires a.RemoveUnlink? ==> s.queue != []
    ensures NonNullState(Step(s, a))
  {
  }

  /** For non-null data, a remove returns NULL exactly when its wait timed out or failed. */
  lemma {:induction false} NullMeansWaitFailed(maxSize: nat, acts: seq<Action>)
    requires Feasible(Init(maxSize), acts) && NonNullAdds(acts)
    ensures NonNullState(Run(Init(maxSize), acts))
  {
    if acts != [] {
      var before, a := acts[..|acts| - 1], acts[|acts| - 1];
      NullMeansWaitFailed(maxSize, before);
      RunKeepsInv(maxSize, before);
      if a.RemoveUnlink? {
        WokenConsumerFindsANode(Run(Init(maxSize), before), Hits(Init(maxSize), before), a.t);
      }
      StepKeepsNonNull(Run(Init(maxSize), before), a);
    }
  }

  // ----- producers and consumers do not block each other for good

  /** A full buffer has a wakeup pending or about to be signalled. */
  lemma FullBufferHasAWakeup(s: State, hits: nat)
    requires Inv(s, hits) && s.maxSize >= 1 && |s.queue| == s.maxSize
    ensures Pending(s) + Unsignalled(s) >= 1
    ensures s.owner.None? ==> s.evt || exists t :: t in s.pcs && s.pcs[t].Woken?
  {
    if s.owner.None? && !s.evt {
      assert |Owing(s.pcs)| >= 1;
      var t :| t in Owing(s.pcs);
      assert s.pcs[t].Woken?;
    }
  }

  /** Runs compose. */
  lemma {:induction false} RunConcat(s: State, xs: seq<Action>, ys: seq<Action>)
    requires Feasible(s, xs) && Feasible(Run(s, xs), ys)
    ensures Feasible(s, xs + ys) && Run(s, xs + ys) == Run(Run(s, xs), ys)
    decreases |ys|
  {
    if ys == [] {
      assert xs + ys == xs;
    } else {
      var before, a := ys[..|ys| - 1], ys[|ys| - 1];
      RunConcat(s, xs, before);
      RunSnoc(s, xs + before, a);
      assert xs + ys == xs + before + [a];
    }
  }

  lemma RunConcatTwice(s: State, xs: seq<Action>, ys: seq<Action>, zs: seq<Action>)
    requires Feasible(s, xs) && Feasible(Run(s, xs), ys) && Feasible(Run(Run(s, xs), ys), zs)
    ensures Feasible(s, xs + (ys + zs)) && Run(s, xs + (ys + zs)) == Run(Run(Run(s, xs), ys), zs)
  {
    RunConcat(Run(s, xs), ys, zs);
    RunConcat(s, xs, ys + zs);
  }

  lemma RunSnoc(s: State, acts: seq<Action>, a: Action)
    requires Feasible(s, acts) && Enabled(Run(s, acts), a)
    ensures Feasible(s, acts + [a]) && Run(s, acts + [a]) == Step(Run(s, acts), a)
  {
    assert (acts + [a])[..|acts + [a]| - 1] == acts;
  }

  lemma RunOne(s: State, a: Action)
    requires Enabled(s, a)
    ensures Feasible(s, [a]) && Run(s, [a]) == Step(s, a)
  {
    assert [a][..|[a]| - 1] == [];
    assert Feasible(s, []);
  }

  lemma RunCons(s: State, a: Action, acts: seq<Action>)
    requires Enabled(s, a) && Feasible(Step(s, a), acts)
    ensures Feasible(s, [a] + acts) && Run(s, [a] + acts) == Run(Step(s, a), acts)
  {
    RunOne(s, a);
    RunConcat(s, [a], acts);
  }

  ghost predicate Safe(s: State) {
    exists hits: nat :: Inv(s, hits)
  }

  lemma StepKeepsSafe(s: State, a: Action)
    requires Safe(s) && Enabled(s, a)
    ensures Safe(Step(s, a))
  {
    var hits: nat :| Inv(s, hits);
    StepKeepsInv(s, hits, a);
  }

  function Distance(pc: Pc): nat {
    match pc
    case AddLocked(_) => 3
    case AddLinked(_) => 2
    case RemoveLocked => 2
    case _ => 1
  }

  /** The lock holder never waits for anyone: its next step is always enabled. */
  lemma HolderStep(s: State) returns (a: Action)
    requires Safe(s) && s.owner.Some?
    ensures s.owner.value in s.pcs
    ensures Enabled(s, a) && a.t == s.owner.value && Safe(Step(s, a))
    ensures var s' := Step(s, a);
      && s'.maxSize == s.maxSize && s'.pcs - {a.t} == s.pcs - {a.t}
      && if Distance(s.pcs[a.t]) == 1 then s'.owner.None? && a.t !in s'.pcs
         else s'.owner == s.owner && a.t in s'.pcs && Distance(s'.pcs[a.t]) < Distance(s.pcs[a.t])
  {
    var t := s.owner.value;
    assert s.pcs[t].HoldsLock() by {
      var hits: nat :| Inv(s, hits);
    }
    a := match s.pcs[t]
      case AddLocked(_) => AddLink(t, true)
      case AddLinked(_) => AddSignal(t)
      case AddReturning(_, _) => AddRelease(t)
      case RemoveLocked => RemoveUnlink(t)
      case _ => RemoveRelease(t);
    StepKeepsSafe(s, a);
  }

  /** None of the actions is by `u`. */
  ghost predicate NotBy(acts: seq<Action>, u: Tid) {
    forall i :: 0 <= i < |acts| ==> acts[i].t != u
  }

  /** So on its own it gives the lock back. */
  lemma {:induction false} HolderReleases(s: State) returns (acts: seq<Action>)
    requires Safe(s) && s.owner.Some?
    ensures Feasible(s, acts) && Safe(Run(s, acts))
    ensures forall i :: 0 <= i < |acts| ==> acts[i].t == s.owner.value
    ensures Run(s, acts).owner.None? && Run(s, acts).maxSize == s.maxSize
    ensures Run(s, acts).pcs == s.pcs - {s.owner.value}
    decreases if s.owner.value in s.pcs then Distance(s.pcs[s.owner.value]) else 0
  {
    var a := HolderStep(s);
    var s' := Step(s, a);
    if s'.owner.None? {
      RunOne(s, a);
      acts := [a];
      assert s'.pcs == s'.pcs - {a.t};
    } else {
      var rest := HolderReleases(s');
      RunCons(s, a, rest);
      acts := [a] + rest;
    }
  }

  /** A whole successful add, from start to end. */
  function AddCall(u: Tid, data: Ptr): seq<Action> {
    [AddAcquire(u, data)] + [AddLink(u, true)] + [AddSignal(u)] + [AddRelease(u)]
  }

  /** The locked part of a remove. */
  function Drain(t: Tid): seq<Action> {
    [RemoveAcquire(t)] + [RemoveUnlink(t)] + [RemoveRelease(t)]
  }

  /** A whole remove whose wait succeeds. */
  function RemoveCall(u: Tid): seq<Action> {
    [WaitSuccess(u)] + Drain(u)
  }

  lemma DrainSteps(s: State, t: Tid)
    requires s.owner.None? && t in s.pcs && s.pcs[t].Woken? && s.queue != []
    ensures Feasible(s, Drain(t))
    ensures Run(s, Drain(t)) ==
            s.(queue := s.queue[1..], pcs := s.pcs - {t}, log := s.log + [Removed(t, s.queue[0], true)])
  {
    var a1, a2, a3 := RemoveAcquire(t), RemoveUnlink(t), RemoveRelease(t);
    RunOne(s, a1);
    RunSnoc(s, [a1], a2);
    RunSnoc(s, [a1] + [a2], a3);
    assert Run(s, Drain(t)).pcs == s.pcs - {t};
  }

  lemma AddSteps(s: State, u: Tid, data: Ptr)
    requires s.owner.None? && u !in s.pcs && |s.queue| < s.maxSize
    ensures Feasible(s, AddCall(u, data))
    ensures Run(s, AddCall(u, data)) ==
            s.(queue := s.queue + [data], evt := true, log := s.log + [Added(u, data, true)])
  {
    var a1, a2, a3, a4 := AddAcquire(u, data), AddLink(u, true), AddSignal(u), AddRelease(u);
    RunOne(s, a1);
    RunSnoc(s, [a1], a2);
    RunSnoc(s, [a1] + [a2], a3);
    RunSnoc(s, [a1] + [a2] + [a3], a4);
    assert Run(s, AddCall(u, data)).pcs == s.pcs;
  }

  /** A woken consumer takes one item out. */
  lemma WokenDrains(s: State, t: Tid)
    requires Safe(s) && s.owner.None? && t in s.pcs && s.pcs[t].Woken?
    ensures s.queue != [] && Feasible(s, Drain(t))
    ensures Run(s, Drain(t)) ==
            s.(queue := s.queue[1..], pcs := s.pcs - {t}, log := s.log + [Removed(t, s.queue[0], true)])
  {
    var hits: nat :| Inv(s, hits);
    WokenConsumerFindsANode(s, hits, t);
    DrainSteps(s, t);
  }

  /** With the event set and the lock free, a remove from start to end returns the first item. */
  lemma WakeAndDrain(s: State, u: Tid)
    requires Safe(s) && s.owner.None? && u !in s.pcs && s.evt
    ensures s.queue != [] && Feasible(s, RemoveCall(u))
    ensures Run(s, RemoveCall(u)) ==
            s.(queue := s.queue[1..], evt := false, log := s.log + [Removed(u, s.queue[0], true)])
  {
    var a := WaitSuccess(u);
    StepKeepsSafe(s, a);
    WokenDrains(Step(s, a), u);
    RunCons(s, a, Drain(u));
    assert s.pcs[u := Woken] - {u} == s.pcs;
  }

  lemma {:induction false} RunKeepsSafe(s: State, acts: seq<Action>)
    requires Safe(s) && Feasible(s, acts)
    ensures Safe(Run(s, acts)) && Run(s, acts).maxSize == s.maxSize
  {
    if acts != [] {
      RunKeepsSafe(s, acts[..|acts| - 1]);
      StepKeepsSafe(Run(s, acts[..|acts| - 1]), acts[|acts| - 1]);
    }
  }

  /** A woken consumer, or else `v`, whom the set event wakes, takes one item out. */
  lemma ConsumerDrainsOne(s: State, u: Tid, v: Tid) returns (acts: seq<Action>)
    requires Safe(s) && s.owner.None? && u !in s.pcs && v !in s.pcs && u != v
    requires s.evt || exists t :: t in s.pcs && s.pcs[t].Woken?
    ensures Feasible(s, acts) && NotBy(acts, u)
    ensures Run(s, acts).owner.None? && |Run(s, acts).queue| == |s.queue| - 1
    ensures u !in Run(s, acts).pcs && v !in Run(s, acts).pcs
  {
    if t :| t in s.pcs && s.pcs[t].Woken? {
      WokenDrains(s, t);
      acts := Drain(t);
    } else {
      WakeAndDrain(s, v);
      acts := RemoveCall(v);
    }
  }

  /** Threads inside their calls, and `v` as a consumer if need be, free the lock and make room. */
  lemma RoomCanBeMade(s: State, u: Tid, v: Tid) returns (acts: seq<Action>)
    requires Safe(s) && s.maxSize >= 1 && u !in s.pcs && v !in s.pcs && u != v
    ensures Feasible(s, acts) && NotBy(acts, u) && Safe(Run(s, acts))
    ensures Run(s, acts).owner.None? && u !in Run(s, acts).pcs && v !in Run(s, acts).pcs
    ensures |Run(s, acts).queue| < Run(s, acts).maxSize
  {
    acts := [];
    if s.owner.Some? {
      acts := HolderReleases(s);
    }
    var s1 := Run(s, acts);
    var hits: nat :| Inv(s1, hits);
    if |s1.queue| == s1.maxSize {
      FullBufferHasAWakeup(s1, hits);
      var more := ConsumerDrainsOne(s1, u, v);
      RunConcat(s, acts, more);
      acts := acts + more;
      RunKeepsSafe(s, acts);
    }
  }

  /**
   Producers and consumers cannot block each other for good. With room for at least one item,
   every run, whatever its threads are in the middle of, can be continued without `u` (by
   threads inside their calls and an idle `v`) to a point where a whole add of any data by `u`
   returns TRUE.
   */
  lemma AddCanAlwaysSucceed(maxSize: nat, past: seq<Action>, u: Tid, v: Tid, data: Ptr)
    returns (help: seq<Action>)
    requires maxSize >= 1 && Feasible(Init(maxSize), past) && u != v
    requires u !in Run(Init(maxSize), past).pcs && v !in Run(Init(maxSize), past).pcs
    ensures NotBy(help, u) && Feasible(Init(maxSize), past + (help + AddCall(u, data)))
    ensures var log := Run(Init(maxSize), past + (help + AddCall(u, data))).log;
            log != [] && log[|log| - 1] == Added(u, data, true)
  {
    RunKeepsInv(maxSize, past);
    var s := Run(Init(maxSize), past);
    help := RoomCanBeMade(s, u, v);
    AddSteps(Run(s, help), u, data);
    RunConcatTwice(Init(maxSize), past, help, AddCall(u, data));
  }

  /** Nor can they shut out a thread that only consumes: every run can be continued without `u`
      to a point where a whole remove by `u` returns an item. */
  lemma RemoveCanAlwaysSucceed(maxSize: nat, past: seq<Action>, u: Tid, v: Tid, data: Ptr)
    returns (help: seq<Action>, item: Ptr)
    requires maxSize >= 1 && Feasible(Init(maxSize), past) && u != v
    requires u !in Run(Init(maxSize), past).pcs && v !in Run(Init(maxSize), past).pcs
    ensures NotBy(help, u) && Feasible(Init(maxSize), past + (help + RemoveCall(u)))
    ensures var log := Run(Init(maxSize), past + (help + RemoveCall(u))).log;
            log != [] && log[|log| - 1] == Removed(u, item, true)
  {
    RunKeepsInv(maxSize, past);
    var s := Run(Init(maxSize), past);
    item, help := ItemCanBeMade(s, u, v, data);
    RunConcatTwice(Init(maxSize), past, help, RemoveCall(u));
  }

  lemma ItemCanBeMade(s: State, u: Tid, v: Tid, data: Ptr) returns (item: Ptr, help: seq<Action>)
    requires Safe(s) && s.maxSize >= 1 && u !in s.pcs && v !in s.pcs && u != v
    ensures Feasible(s, help) && NotBy(help, u) && Feasible(Run(s, help), RemoveCall(u))
    ensures var log := Run(Run(s, help), RemoveCall(u)).log;
            log != [] && log[|log| - 1] == Removed(u, item, true)
  {
    var room := RoomCanBeMade(s, u, v);
    AddSteps(Run(s, room), v, data);
    RunConcat(s, room, AddCall(v, data));
    help := room + AddCall(v, data);
    RunKeepsSafe(s, help);
    WakeAndDrain(Run(s, help), u);
    item := Run(s, help).queue[0];
  }

  // ----- every backlog below max_size happens

  lemma {:induction false} ManyAdds(maxSize: nat, k: nat, u: Tid, data: Ptr) returns (acts: seq<Action>)
    requires 1 <= k <= maxSize
    ensures Feasible(Init(maxSize), acts)
    ensures var s := Run(Init(maxSize), acts);
            |s.queue| == k && s.evt && s.owner.None? && s.pcs == map[] && s.maxSize == maxSize
  {
    acts := [];
    if k > 1 {
      acts := ManyAdds(maxSize, k - 1, u, data);
    }
    AddSteps(Run(Init(maxSize), acts), u, data);
    RunConcat(Init(maxSize), acts, AddCall(u, data));
    acts := acts + AddCall(u, data);
  }

  /** The backlog is real, and the bound of the accounting is tight: every number below max_size
      is left behind, with no call in progress and no wakeup to come, by adds in a row and one
      remove. */
  lemma BacklogHappens(maxSize: nat, k: nat, u: Tid, data: Ptr) returns (acts: seq<Action>)
    requires k < maxSize
    ensures Feasible(Init(maxSize), acts)
    ensures Run(Init(maxSize), acts).pcs == map[] && !Run(Init(maxSize), acts).evt
    ensures |Run(Init(maxSize), acts).queue| == k && Hits(Init(maxSize), acts) == k
  {
    acts := ManyAdds(maxSize, k + 1, u, data);
    RunKeepsInv(maxSize, acts);
    WakeAndDrain(Run(Init(maxSize), acts), u);
    RunConcat(Init(maxSize), acts, RemoveCall(u));
    acts := acts + RemoveCall(u);
    QuiescentBacklog(maxSize, acts);
  }
}
