/**
 The atomic operations of libmysql/include/my_atomic.h: the compare-and-swap bodies of
 atomic/generic-msvc.h and atomic/rwlock.h, and the retry loops built on it. A 32-bit cell is
 a number modulo 2^32.
 */
module Atomic {
  import opened Wrappers

  const WORD: int := 0x1_0000_0000

  type word = x: nat | x < 0x1_0000_0000

  /** Addition that wraps around. */
  function Plus(a: word, b: word): word {
    if a + b < WORD then a + b else a + b - WORD
  }

  // ----- one compare-and-swap

  class Cell {
    var value: word

    constructor (value: word)
      ensures this.value == value
    {
      this.value := value;
    }
  }

  datatype CasResult = CasResult(ret: bool, cell: word, cmp: word)

  /** If the cell holds what is expected, store; otherwise report what it holds. */
  function Cas(cell: word, cmp: word, next: word): CasResult {
    if cell == cmp then CasResult(true, next, cmp) else CasResult(false, cell, cell)
  }

  /** The body of atomic/rwlock.h, run under its lock. */
  method CasLocked(a: Cell, cmp: Cell, next: word) returns (ret: bool)
    requires a != cmp
    modifies a, cmp
    ensures CasResult(ret, a.value, cmp.value) == Cas(old(a.value), old(cmp.value), next)
  {
    ret := a.value == cmp.value;
    if ret {
      a.value := next;
    } else {
      cmp.value := a.value;
    }
  }

  /** InterlockedCompareExchange. */
  method CompareExchange(a: Cell, next: word, comparand: word) returns (initial: word)
    modifies a
    ensures initial == old(a.value)
    ensures a.value == if old(a.value) == comparand then next else old(a.value)
  {
    initial := a.value;
    if initial == comparand {
      a.value := next;
    }
  }

  /** The body of atomic/generic-msvc.h refines the locked one: same contract. */
  method CasMsvc(a: Cell, cmp: Cell, next: word) returns (ret: bool)
    requires a != cmp
    modifies a, cmp
    ensures CasResult(ret, a.value, cmp.value) == Cas(old(a.value), old(cmp.value), next)
  {
    var initialCmp := cmp.value;
    var initialA := CompareExchange(a, next, initialCmp);
    ret := initialA == initialCmp;
    if !ret {
      cmp.value := initialA;
    }
  }

  /** The load bodies: a compare-and-swap of 0 with 0. */
  method Load(a: Cell) returns (ret: word)
    modifies a
    ensures ret == old(a.value) && a.value == old(a.value)
  {
    var tmp := new Cell(0);
    var _ := CasMsvc(a, tmp, 0);
    ret := tmp.value;
  }

  // ----- the retry loops, among any number of threads

  datatype Op = Add(v: word) | Fas(v: word)

  function Apply(op: Op, old_: word): word {
    match op
    case Add(v) => Plus(old_, v)
    case Fas(v) => v
  }

  /** A winning compare-and-swap: which call, what it did, and the value it returns. */
  datatype Win = Win(call: nat, op: Op, result: word)

  /** A call inside its loop. `seen` is how many wins preceded its last look at the cell,
      `started` how many preceded its first; `fails` counts its failed attempts. */
  datatype Call = Call(op: Op, tmp: word, seen: nat, started: nat, fails: nat)

  datatype State = State(
    initial: word,
    cell: word,
    calls: map<nat, Call>,
    wins: seq<Win>,
    used: set<nat>,          // the names of all calls so far
    loads: seq<word>)        // what the load calls returned

  datatype Action =
    | Begin(id: nat, op: Op)   // int32 tmp= *a
    | Attempt(id: nat)         // my_atomic_cas(a, &tmp, ...)
    | LoadCell                 // my_atomic_cas(a, &ret, ret) with ret == 0

  function Init(initial: word): State {
    State(initial, initial, map[], [], {}, [])
  }

  predicate Enabled(s: State, a: Action) {
    match a
    case Begin(id, _) => id !in s.used
    case Attempt(id) => id in s.calls
    case LoadCell => true
  }

  function Step(s: State, a: Action): State
    requires Enabled(s, a)
  {
    match a
    case Begin(id, op) =>
      s.(calls := s.calls[id := Call(op, s.cell, |s.wins|, |s.wins|, 0)], used := s.used + {id})
    case Attempt(id) =>
      var c := s.calls[id];
      var r := Cas(s.cell, c.tmp, Apply(c.op, c.tmp));
      if r.ret then
        s.(cell := r.cell, calls := s.calls - {id}, wins := s.wins + [Win(id, c.op, r.cmp)])
      else
        s.(cell := r.cell,
           calls := s.calls[id := c.(tmp := r.cmp, seen := |s.wins|, fails := c.fails + 1)])
    case LoadCell =>
      var r := Cas(s.cell, 0, 0);
      s.(cell := r.cell, loads := s.loads + [r.cmp])
  }

  predicate Feasible(s: State, acts: seq<Action>)
    decreases |acts|, 0
  {
    acts == [] ||
    (Feasible(s, acts[..|acts| - 1]) && Enabled(Run(s, acts[..|acts| - 1]), acts[|acts| - 1]))
  }

  function Run(s: State, acts: seq<Action>): State
    requires Feasible(s, acts)
    decreases |acts|, 1
  {
    if acts == [] then s else Step(Run(s, acts[..|acts| - 1]), acts[|acts| - 1])
  }

  // ----- the sequential meaning

  /** The cell after the operations have been applied one after the other. */
  function Replay(initial: word, wins: seq<Win>): word {
    if wins == [] then initial
    else Apply(wins[|wins| - 1].op, Replay(initial, wins[..|wins| - 1]))
  }

  /** How often a call has won. */
  function Count(wins: seq<Win>, id: nat): nat {
    if wins == [] then 0
    else Count(wins[..|wins| - 1], id) + if wins[|wins| - 1].call == id then 1 else 0
  }

  /** Each winner returned the value right before it. */
  ghost predicate ResultsRight(initial: word, wins: seq<Win>) {
    forall i :: 0 <= i < |wins| ==> wins[i].result == Replay(initial, wins[..i])
  }

  /** The cell is the replay of the winners; each winner returned the value right before it. */
  ghost predicate Linearized(s: State) {
    s.cell == Replay(s.initial, s.wins) && ResultsRight(s.initial, s.wins)
  }

  /** A call that is still running has not won; one that is over has won exactly once. */
  ghost predicate OnceEach(s: State) {
    && s.calls.Keys <= s.used
    && forall id :: Count(s.wins, id) == if id in s.used && id !in s.calls then 1 else 0
  }

  /** A running call holds a value the cell really had, and every failure of its loop was caused
      by another call's win since its previous look. */
  ghost predicate Paid(initial: word, wins: seq<Win>, c: Call) {
    c.started + c.fails <= c.seen <= |wins| && c.tmp == Replay(initial, wins[..c.seen])
  }

  ghost predicate FailuresPaid(s: State) {
    forall id :: id in s.calls ==> Paid(s.initial, s.wins, s.calls[id])
  }

  ghost predicate Inv(s: State) {
    Linearized(s) && OnceEach(s) && FailuresPaid(s)
  }

  lemma ReplayWin(initial: word, wins: seq<Win>, w: Win)
    ensures Replay(initial, wins + [w]) == Apply(w.op, Replay(initial, wins))
  {
    assert (wins + [w])[..|wins + [w]| - 1] == wins;
  }

  lemma ResultsGrow(initial: word, wins: seq<Win>, w: Win)
    requires ResultsRight(initial, wins) && w.result == Replay(initial, wins)
    ensures ResultsRight(initial, wins + [w])
  {
    forall i | 0 <= i < |wins + [w]| ensures (wins + [w])[i].result == Replay(initial, (wins + [w])[..i]) {
      assert (wins + [w])[..i] == wins[..i];
      if i == |wins| {
        assert wins[..i] == wins;
      }
    }
  }

  lemma StepKeepsLinearized(s: State, a: Action)
    requires Linearized(s) && Enabled(s, a)
    ensures Linearized(Step(s, a))
  {
    if a.Attempt? && s.cell == s.calls[a.id].tmp {
      var w := Win(a.id, s.calls[a.id].op, s.cell);
      ReplayWin(s.initial, s.wins, w);
      ResultsGrow(s.initial, s.wins, w);
    }
  }

  lemma StepKeepsOnceEach(s: State, a: Action)
    requires OnceEach(s) && Enabled(s, a)
    ensures OnceEach(Step(s, a))
  {
    var s' := Step(s, a);
    if a.Attempt? && s.cell == s.calls[a.id].tmp {
      assert s'.wins[..|s'.wins| - 1] == s.wins;
      assert forall id :: Count(s'.wins, id) == Count(s.wins, id) + if id == a.id then 1 else 0;
    }
  }

  lemma PaidGrows(initial: word, wins: seq<Win>, w: Win, c: Call)
    requires Paid(initial, wins, c)
    ensures Paid(initial, wins + [w], c)
  {
    assert (wins + [w])[..c.seen] == wins[..c.seen];
  }

  /** A new look at the cell: a call that found it changed has another win to blame. */
  lemma PaidAfterLook(s: State, c: Call)
    requires Linearized(s) && Paid(s.initial, s.wins, c)
    ensures s.cell != c.tmp ==>
              Paid(s.initial, s.wins, c.(tmp := s.cell, seen := |s.wins|, fails := c.fails + 1))
  {
    assert s.wins[..|s.wins|] == s.wins;
  }

  lemma StepKeepsFailuresPaid(s: State, a: Action)
    requires Linearized(s) && FailuresPaid(s) && Enabled(s, a)
    ensures FailuresPaid(Step(s, a))
  {
    var s' := Step(s, a);
    forall id | id in s'.calls ensures Paid(s'.initial, s'.wins, s'.calls[id]) {
      match a
      case Begin(new_, _) =>
        assert s.wins[..|s.wins|] == s.wins;
      case Attempt(other) =>
        var c := s.calls[other];
        if s.cell == c.tmp {
          PaidGrows(s.initial, s.wins, Win(other, c.op, c.tmp), s.calls[id]);
        } else {
          PaidAfterLook(s, c);
        }
      case LoadCell =>
    }
  }

  /**
   In every interleaving of calls of the add and fetch-and-store loops: each call takes effect
   exactly once, at its winning compare-and-swap, and returns the value just before it; and a
   call has failed at most as often as other calls have won since it started.
   */
  lemma {:induction false} RunKeepsInv(initial: word, acts: seq<Action>)
    requires Feasible(Init(initial), acts)
    ensures Inv(Run(Init(initial), acts)) && Run(Init(initial), acts).initial == initial
  {
    if acts != [] {
      var before := acts[..|acts| - 1];
      RunKeepsInv(initial, before);
      StepKeepsLinearized(Run(Init(initial), before), acts[|acts| - 1]);
      StepKeepsOnceEach(Run(Init(initial), before), acts[|acts| - 1]);
      StepKeepsFailuresPaid(Run(Init(initial), before), acts[|acts| - 1]);
    }
  }

  /** A load leaves every part of the state but its own result alone, and returns the cell. */
  lemma LoadObserves(s: State)
    ensures Step(s, LoadCell) == s.(loads := s.loads + [s.cell])
  {
  }

  /** What a fetch-and-store puts in, the next winner takes out. */
  lemma FasHandsOver(s: State, i: nat)
    requires Linearized(s) && i < |s.wins| && s.wins[i].op.Fas?
    ensures i + 1 < |s.wins| ==> s.wins[i + 1].result == s.wins[i].op.v
    ensures i + 1 == |s.wins| ==> s.cell == s.wins[i].op.v
  {
    assert s.wins[..i + 1][..i] == s.wins[..i];
    if i + 1 == |s.wins| {
      assert s.wins[..i + 1] == s.wins;
    }
  }

  // ----- the calls do what they were asked to do

  /** The operation a call was begun with. */
  function OpOf(acts: seq<Action>, id: nat): Option<Op> {
    if acts == [] then None
    else
      var a := acts[|acts| - 1];
      if a.Begin? && a.id == id then Some(a.op) else OpOf(acts[..|acts| - 1], id)
  }

  /** How many attempts a call has made. */
  function Attempts(acts: seq<Action>, id: nat): nat {
    if acts == [] then 0
    else Attempts(acts[..|acts| - 1], id) + if acts[|acts| - 1] == Attempt(id) then 1 else 0
  }

  /** How many calls had won when this one began. */
  function WinsAtBegin(s0: State, acts: seq<Action>, id: nat): nat
    requires Feasible(s0, acts)
  {
    if acts == [] then 0
    else
      var before, a := acts[..|acts| - 1], acts[|acts| - 1];
      if a.Begin? && a.id == id then |Run(s0, before).wins| else WinsAtBegin(s0, before, id)
  }

  /** A running call works on its operation; all its attempts have failed. */
  ghost predicate CallAsked(c: Call, op: Option<Op>, attempts: nat, started: nat) {
    op == Some(c.op) && c.fails == attempts && c.started == started
  }

  /** The `i`-th winner applied its operation; apart from the last, its attempts were each made
      to fail by one of the wins since it began. */
  ghost predicate WinAsked(w: Win, i: nat, op: Option<Op>, attempts: nat, started: nat) {
    op == Some(w.op) && started + attempts <= i + 1
  }

  ghost predicate CallsAsked(s0: State, acts: seq<Action>, s: State)
    requires Feasible(s0, acts)
  {
    forall id :: id in s.calls ==>
      CallAsked(s.calls[id], OpOf(acts, id), Attempts(acts, id), WinsAtBegin(s0, acts, id))
  }

  ghost predicate WinsAsked(s0: State, acts: seq<Action>, s: State)
    requires Feasible(s0, acts)
  {
    forall i :: 0 <= i < |s.wins| ==>
      var id := s.wins[i].call;
      WinAsked(s.wins[i], i, OpOf(acts, id), Attempts(acts, id), WinsAtBegin(s0, acts, id))
  }

  /** A name is used once a call has begun under it, and not attempted before. */
  ghost predicate NamesUsed(acts: seq<Action>, s: State) {
    forall id :: (id in s.used <==> OpOf(acts, id).Some?) && (id !in s.used ==> Attempts(acts, id) == 0)
  }

  ghost predicate WinnersUsed(s: State) {
    s.calls.Keys <= s.used && forall i :: 0 <= i < |s.wins| ==> s.wins[i].call in s.used && s.wins[i].call !in s.calls
  }

  lemma OneMore(before: seq<Action>, a: Action, id: nat)
    ensures OpOf(before + [a], id) == if a.Begin? && a.id == id then Some(a.op) else OpOf(before, id)
    ensures Attempts(before + [a], id) == Attempts(before, id) + if a == Attempt(id) then 1 else 0
  {
    assert (before + [a])[..|before + [a]| - 1] == before;
  }

  lemma OneMoreBegin(s0: State, before: seq<Action>, a: Action, id: nat)
    requires Feasible(s0, before) && Enabled(Run(s0, before), a)
    ensures Feasible(s0, before + [a]) && Run(s0, before + [a]) == Step(Run(s0, before), a)
    ensures WinsAtBegin(s0, before + [a], id) ==
            if a.Begin? && a.id == id then |Run(s0, before).wins| else WinsAtBegin(s0, before, id)
  {
    assert (before + [a])[..|before + [a]| - 1] == before;
  }

  ghost predicate AsAsked(s0: State, acts: seq<Action>, s: State)
    requires Feasible(s0, acts)
  {
    NamesUsed(acts, s) && WinnersUsed(s) && CallsAsked(s0, acts, s) && WinsAsked(s0, acts, s)
  }

  lemma StepNamesUsed(before: seq<Action>, s: State, a: Action)
    requires NamesUsed(before, s) && WinnersUsed(s) && Enabled(s, a)
    ensures NamesUsed(before + [a], Step(s, a)) && WinnersUsed(Step(s, a))
  {
    forall id
      ensures id in Step(s, a).used <==> OpOf(before + [a], id).Some?
      ensures id !in Step(s, a).used ==> Attempts(before + [a], id) == 0
    {
      OneMore(before, a, id);
    }
  }

  lemma StepCallAsked(s0: State, before: seq<Action>, s: State, a: Action, id: nat)
    requires Feasible(s0, before) && s == Run(s0, before) && Enabled(s, a)
    requires AsAsked(s0, before, s) && id in Step(s, a).calls
    ensures Feasible(s0, before + [a])
    ensures CallAsked(Step(s, a).calls[id], OpOf(before + [a], id), Attempts(before + [a], id),
                      WinsAtBegin(s0, before + [a], id))
  {
    OneMore(before, a, id);
    OneMoreBegin(s0, before, a, id);
    if id in s.calls {
      assert CallAsked(s.calls[id], OpOf(before, id), Attempts(before, id), WinsAtBegin(s0, before, id));
    }
  }

  lemma StepWinAsked(s0: State, before: seq<Action>, s: State, a: Action, i: nat)
    requires Feasible(s0, before) && s == Run(s0, before) && Enabled(s, a) && FailuresPaid(s)
    requires AsAsked(s0, before, s) && i < |Step(s, a).wins|
    ensures Feasible(s0, before + [a])
    ensures var w := Step(s, a).wins[i];
      WinAsked(w, i, OpOf(before + [a], w.call), Attempts(before + [a], w.call), WinsAtBegin(s0, before + [a], w.call))
  {
    var w := Step(s, a).wins[i];
    OneMore(before, a, w.call);
    OneMoreBegin(s0, before, a, w.call);
    if i < |s.wins| {
      assert WinAsked(s.wins[i], i, OpOf(before, w.call), Attempts(before, w.call), WinsAtBegin(s0, before, w.call));
    } else {
      var c := s.calls[w.call];
      assert CallAsked(c, OpOf(before, w.call), Attempts(before, w.call), WinsAtBegin(s0, before, w.call));
      assert Paid(s.initial, s.wins, c);
    }
  }

  /**
   Over every run: each call works on the operation it was begun with and no other; a call that
   has won did so with that operation; and each of its failed attempts is matched by another
   call's win since it began.
   */
  lemma {:induction false} RunAsAsked(initial: word, acts: seq<Action>)
    requires Feasible(Init(initial), acts)
    ensures AsAsked(Init(initial), acts, Run(Init(initial), acts))
  {
    var s0 := Init(initial);
    if acts != [] {
      var before, a := acts[..|acts| - 1], acts[|acts| - 1];
      var s := Run(s0, before);
      RunAsAsked(initial, before);
      RunKeepsInv(initial, before);
      assert acts == before + [a];
      StepNamesUsed(before, s, a);
      forall id | id in Step(s, a).calls
        ensures CallAsked(Step(s, a).calls[id], OpOf(acts, id), Attempts(acts, id), WinsAtBegin(s0, acts, id))
      {
        StepCallAsked(s0, before, s, a, id);
      }
      forall i | 0 <= i < |Step(s, a).wins|
        ensures var id := Step(s, a).wins[i].call;
          WinAsked(Step(s, a).wins[i], i, OpOf(acts, id), Attempts(acts, id), WinsAtBegin(s0, acts, id))
      {
        StepWinAsked(s0, before, s, a, i);
      }
    }
  }

  /** Alone, a call wins with its second attempt at the latest. */
  lemma SoloCallWins(s: State, id: nat) returns (acts: seq<Action>)
    requires id in s.calls
    ensures Feasible(s, acts) && 1 <= |acts| <= 2 && forall i :: 0 <= i < |acts| ==> acts[i] == Attempt(id)
    ensures var s' := Run(s, acts);
            s'.calls == s.calls - {id} && s'.wins == s.wins + [Win(id, s.calls[id].op, s.cell)]
  {
    var a := Attempt(id);
    RunSnoc(s, [], a);
    acts := [] + [a];
    if s.cell != s.calls[id].tmp {
      RunSnoc(s, acts, a);
      acts := acts + [a];
      assert Run(s, acts).calls == s.calls - {id};
    }
  }

  lemma RunSnoc(s: State, acts: seq<Action>, a: Action)
    requires Feasible(s, acts) && Enabled(Run(s, acts), a)
    ensures Feasible(s, acts + [a]) && Run(s, acts + [a]) == Step(Run(s, acts), a)
  {
    assert (acts + [a])[..|acts + [a]| - 1] == acts;
  }

  // ----- adds only

  function Sum(wins: seq<Win>): nat {
    if wins == [] then 0
    else
      var op := wins[|wins| - 1].op;
      Sum(wins[..|wins| - 1]) + if op.Add? then op.v else 0
  }

  lemma {:induction false} ReplayAdds(initial: word, wins: seq<Win>)
    requires forall i :: 0 <= i < |wins| ==> wins[i].op.Add?
    ensures Replay(initial, wins) == (initial + Sum(wins)) % WORD
  {
    if wins != [] {
      var before, v := wins[..|wins| - 1], wins[|wins| - 1].op.v;
      ReplayAdds(initial, before);
      PlusIsModular(initial + Sum(before), v);
    }
  }

  lemma PlusIsModular(a: nat, b: word)
    ensures Plus(a % WORD, b) == (a + b) % WORD
  {
  }

  ghost predicate OnlyAdds(s: State) {
    && (forall id :: id in s.calls ==> s.calls[id].op.Add?)
    && (forall i :: 0 <= i < |s.wins| ==> s.wins[i].op.Add?)
  }

  lemma {:induction false} RunKeepsOnlyAdds(initial: word, acts: seq<Action>)
    requires Feasible(Init(initial), acts)
    requires forall i :: 0 <= i < |acts| && acts[i].Begin? ==> acts[i].op.Add?
    ensures OnlyAdds(Run(Init(initial), acts))
  {
    if acts != [] {
      RunKeepsOnlyAdds(initial, acts[..|acts| - 1]);
    }
  }

  /** The sum of what the adds among the given calls were begun with. */
  function Requested(acts: seq<Action>, over: set<nat>): nat {
    if acts == [] then 0
    else
      var a := acts[|acts| - 1];
      Requested(acts[..|acts| - 1], over) + if a.Begin? && a.id in over then Amount(a.op) else 0
  }

  function Amount(op: Op): nat {
    if op.Add? then op.v else 0
  }

  /** The calls that have returned. */
  function Finished(s: State): set<nat> {
    s.used - s.calls.Keys
  }

  lemma RequestedMore(before: seq<Action>, a: Action, over: set<nat>)
    ensures Requested(before + [a], over) ==
            Requested(before, over) + if a.Begin? && a.id in over then Amount(a.op) else 0
  {
    assert (before + [a])[..|before + [a]| - 1] == before;
  }

  /** One more call in the set adds what it was begun with. */
  lemma {:induction false} RequestedOneMoreCall(initial: word, acts: seq<Action>, over: set<nat>, id: nat)
    requires Feasible(Init(initial), acts) && id !in over
    ensures Requested(acts, over + {id}) ==
            Requested(acts, over) + if OpOf(acts, id).Some? then Amount(OpOf(acts, id).value) else 0
  {
    if acts != [] {
      var before := acts[..|acts| - 1];
      RequestedOneMoreCall(initial, before, over, id);
      RunAsAsked(initial, before);
    }
  }

  lemma {:induction false} SumIsRequested(initial: word, acts: seq<Action>)
    requires Feasible(Init(initial), acts)
    ensures Sum(Run(Init(initial), acts).wins) == Requested(acts, Finished(Run(Init(initial), acts)))
  {
    var s0 := Init(initial);
    if acts != [] {
      var before, a := acts[..|acts| - 1], acts[|acts| - 1];
      SumIsRequested(initial, before);
      RunAsAsked(initial, before);
      assert acts == before + [a];
      StepSum(initial, before, Run(s0, before), a);
    }
  }

  lemma StepSum(initial: word, before: seq<Action>, s: State, a: Action)
    requires Feasible(Init(initial), before) && s == Run(Init(initial), before) && Enabled(s, a)
    requires AsAsked(Init(initial), before, s)
    requires Sum(s.wins) == Requested(before, Finished(s))
    ensures Sum(Step(s, a).wins) == Requested(before + [a], Finished(Step(s, a)))
  {
    var s' := Step(s, a);
    RequestedMore(before, a, Finished(s'));
    if a.Attempt? && s.cell == s.calls[a.id].tmp {
      var c := s.calls[a.id];
      assert CallAsked(c, OpOf(before, a.id), Attempts(before, a.id), WinsAtBegin(Init(initial), before, a.id));
      assert Finished(s') == Finished(s) + {a.id};
      RequestedOneMoreCall(initial, before, Finished(s), a.id);
      assert s'.wins[..|s'.wins| - 1] == s.wins;
    } else {
      assert Finished(s') == Finished(s);
    }
  }

  /** The cell is the initial value plus everything the returned adds were asked to add, modulo 2^32. */
  ghost predicate SumsUp(initial: word, acts: seq<Action>, s: State) {
    s.cell == (initial + Requested(acts, Finished(s))) % WORD
  }

  /** With adds only, the cell is the initial value plus the sum of what the returned calls were
      asked to add. */
  lemma {:induction false} AddsSumUp(initial: word, acts: seq<Action>)
    requires Feasible(Init(initial), acts)
    requires forall i :: 0 <= i < |acts| && acts[i].Begin? ==> acts[i].op.Add?
    ensures SumsUp(initial, acts, Run(Init(initial), acts))
  {
    RunOfAdds(initial, acts);
    SumIsRequested(initial, acts);
    CellIsSum(initial, acts, Run(Init(initial), acts));
  }

  lemma {:induction false} RunOfAdds(initial: word, acts: seq<Action>)
    requires Feasible(Init(initial), acts)
    requires forall i :: 0 <= i < |acts| && acts[i].Begin? ==> acts[i].op.Add?
    ensures var s := Run(Init(initial), acts); Linearized(s) && OnlyAdds(s) && s.initial == initial
  {
    RunKeepsInv(initial, acts);
    RunKeepsOnlyAdds(initial, acts);
  }

  lemma {:induction false} CellIsSum(initial: word, acts: seq<Action>, s: State)
    requires Linearized(s) && OnlyAdds(s) && s.initial == initial
    requires Sum(s.wins) == Requested(acts, Finished(s))
    ensures SumsUp(initial, acts, s)
  {
    ReplayAdds(s.initial, s.wins);
  }

  // ----- the loop as code

  /** How many slots hold a write. */
  function Writes(others: seq<Option<word>>): nat {
    if others == [] then 0
    else Writes(others[..|others| - 1]) + if others[|others| - 1].Some? then 1 else 0
  }

  /** The cell after those writes. */
  function After(value: word, others: seq<Option<word>>): word {
    if others == [] then value
    else if others[|others| - 1].Some? then others[|others| - 1].value
    else After(value, others[..|others| - 1])
  }

  /** make_atomic_add_body and make_atomic_fas_body, with other threads' writes to the cell as an
      input: before attempt `i` the cell is overwritten with `others[i]` if that is a value. The
      loop ends, returns what the cell held right before its winning attempt, and has failed no
      more often than others wrote up to then. */
  method Retry(a: Cell, op: Op, others: seq<Option<word>>) returns (r: word, ghost fails: nat)
    modifies a
    ensures a.value == Apply(op, r)
    ensures var used := if fails < |others| then fails + 1 else |others|;
      && r == After(old(a.value), others[..used])
      && fails <= Writes(others[..used])
  {
    var tmp := new Cell(a.value);
    var i := 0;
    fails := 0;
    while true
      invariant fresh(tmp) && a != tmp
      invariant 0 <= i == fails <= |others| && fails <= Writes(others[..i])
      invariant tmp.value == a.value == After(old(a.value), others[..i])
      decreases |others| - i
    {
      if i < |others| {
        assert others[..i + 1][..i] == others[..i];
        if others[i].Some? {
          a.value := others[i].value;
        }
        i := i + 1;
      }
      var ret := CasMsvc(a, tmp, Apply(op, tmp.value));
      if ret {
        return tmp.value, fails;
      }
      fails := fails + 1;
    }
  }
}
