/**
 Any number of shm_write and shm_write_or_skip calls on one shared mapping with a mutex, step by
 step: lock or time out, copy one byte at a time, unlock, return.
 */
module ShmProtocol {
  import opened Wrappers
  import opened Shm

  datatype Call =
    | Copying(data: seq<byte>, skip: bool, k: nat)  // holds the mutex, k bytes copied
    | Unlocked(n: nat, skip: bool)                  // n bytes written, mutex released

  datatype Write = Write(id: nat, data: seq<byte>)

  datatype State = State(
    mem: seq<byte>,
    mutex: Option<nat>,
    calls: map<nat, Call>,
    returned: map<nat, nat>,  // the code each finished call returned
    writes: seq<Write>)       // the writes whose mutex has been released, in that order
  {
    function Len(): int { |mem| - HEADER }
  }

  datatype Action =
    | LockTimeout(id: nat)
    | LockOk(id: nat, data: seq<byte>, skip: bool)
    | CopyByte(id: nat)
    | Unlock(id: nat)
    | Return(id: nat, acked: bool)

  predicate Enabled(s: State, a: Action) {
    match a
    case LockTimeout(id) => id !in s.calls && id !in s.returned
    case LockOk(id, _, _) => id !in s.calls && id !in s.returned && s.mutex.None?
    case CopyByte(id) =>
      && id in s.calls && s.calls[id].Copying?
      && s.calls[id].k < |s.calls[id].data| && s.calls[id].k < s.Len()
    case Unlock(id) =>
      && id in s.calls && s.calls[id].Copying?
      && s.Len() >= 0 && s.calls[id].k == Min(|s.calls[id].data|, s.Len())
    case Return(id, _) => id in s.calls && s.calls[id].Unlocked?
  }

  function Step(s: State, a: Action): State
    requires Enabled(s, a)
  {
    match a
    case LockTimeout(id) => s.(returned := s.returned[id := LOCK_FAILED])
    case LockOk(id, data, skip) => s.(mutex := Some(id), calls := s.calls[id := Copying(data, skip, 0)])
    case CopyByte(id) =>
      var c := s.calls[id];
      s.(mem := s.mem[HEADER + c.k := c.data[c.k]], calls := s.calls[id := c.(k := c.k + 1)])
    case Unlock(id) =>
      var c := s.calls[id];
      s.(mutex := None, calls := s.calls[id := Unlocked(c.k, c.skip)], writes := s.writes + [Write(id, c.data)])
    case Return(id, acked) =>
      var c := s.calls[id];
      var code := c.n % 0x1_0000_0000;
      s.(calls := s.calls - {id},
         returned := s.returned[id := if c.skip && !Failed(code) && !acked then WRITE_TIMEOUT else code])
  }

  predicate Feasible(s: State, acts: seq<Action>)
    decreases |acts|, 0
  {
    acts == [] ||
    (Feasible(s, acts[..|acts| - 1]) && Enabled(Run(s, acts[..|acts| - 1]), acts[|acts| - 1]))
  }

  function Run(s: State, acts: seq<Action>): State
    requires Feasible(s, acts)
    decreases |acts|, 1
  {
    if acts == [] then s else Step(Run(s, acts[..|acts| - 1]), acts[|acts| - 1])
  }

  // ----- the serial meaning

  /** The region after whole writes, one after the other. */
  function Serial(region: seq<byte>, writes: seq<Write>): (r: seq<byte>)
    ensures |r| == |region|
  {
    if writes == [] then region
    else Overlay(Serial(region, writes[..|writes| - 1]), writes[|writes| - 1].data)
  }

  function Count(writes: seq<Write>, id: nat): nat {
    if writes == [] then 0
    else Count(writes[..|writes| - 1], id) + if writes[|writes| - 1].id == id then 1 else 0
  }

  /** Only the mutex holder is copying. */
  ghost predicate MutexInv(s: State) {
    && (forall id :: id in s.calls ==> (s.calls[id].Copying? <==> s.mutex == Some(id)))
    && (s.mutex.Some? ==> s.mutex.value in s.calls)
    && s.calls.Keys !! s.returned.Keys
  }

  /** The names in front never change; the region is the serial result, overlaid with what the
      mutex holder has copied so far. */
  ghost predicate MemInv(s: State, names: seq<byte>, region: seq<byte>) {
    && |names| == HEADER && s.mem[..Min(HEADER, |s.mem|)] == names && |s.mem| == HEADER + |region|
    && match s.mutex
       case None => s.mem[HEADER..] == Serial(region, s.writes)
       case Some(id) =>
         && id in s.calls && s.calls[id].Copying?
         && s.calls[id].k <= |s.calls[id].data| && s.calls[id].k <= |region|
         && s.mem[HEADER..] == Overlay(Serial(region, s.writes), s.calls[id].data[..s.calls[id].k])
  }

  /** The exact code of a call that wrote `n` bytes. */
  ghost predicate CodeInv(s: State, len: nat) {
    && (forall id :: id in s.calls && s.calls[id].Unlocked? ==> s.calls[id].n <= len)
    && forall id :: Count(s.writes, id) ==
         if (id in s.calls && s.calls[id].Unlocked?) || (id in s.returned && s.returned[id] != LOCK_FAILED)
         then 1 else 0
  }

  lemma {:induction false} OverlayStep(base: seq<byte>, data: seq<byte>, k: nat)
    requires k < |data| && k < |base|
    ensures Overlay(base, data[..k])[k := data[k]] == Overlay(base, data[..k + 1])
  {
  }

  lemma {:induction false} OverlayAll(base: seq<byte>, data: seq<byte>, k: nat)
    requires k == Min(|data|, |base|)
    ensures Overlay(base, data[..k]) == Overlay(base, data)
  {
  }

  lemma StepKeepsMutex(s: State, a: Action)
    requires MutexInv(s) && Enabled(s, a)
    ensures MutexInv(Step(s, a))
  {
  }

  lemma StepKeepsMem(s: State, a: Action, names: seq<byte>, region: seq<byte>)
    requires MutexInv(s) && MemInv(s, names, region) && Enabled(s, a)
    ensures MemInv(Step(s, a), names, region)
  {
    var s' := Step(s, a);
    var base := Serial(region, s.writes);
    match a
    case LockOk(id, data, _) => assert Overlay(base, data[..0]) == base;
    case CopyByte(id) =>
      var c := s.calls[id];
      assert s'.mem[..HEADER] == s.mem[..HEADER];
      assert s'.mem[HEADER..] == s.mem[HEADER..][c.k := c.data[c.k]];
      OverlayStep(base, c.data, c.k);
    case Unlock(id) =>
      var c := s.calls[id];
      OverlayAll(base, c.data, c.k);
      assert s'.writes[..|s'.writes| - 1] == s.writes;
    case _ =>
  }

  lemma StepKeepsCodes(s: State, a: Action, len: nat)
    requires MutexInv(s) && CodeInv(s, len) && Enabled(s, a) && s.Len() == len < LOCK_FAILED
    ensures CodeInv(Step(s, a), len)
  {
    var s' := Step(s, a);
    if a.Unlock? {
      assert s'.writes[..|s'.writes| - 1] == s.writes;
      assert forall id :: Count(s'.writes, id) == Count(s.writes, id) + if id == a.id then 1 else 0;
    }
  }

  function Init(names: seq<byte>, region: seq<byte>): State {
    State(names + region, None, map[], map[], [])
  }

  /**
   In every interleaving of writers, whenever the mutex is free the data region is a serial fold
   of whole writes cut to its length, and the names in front never change.
   */
  lemma {:induction false} RunIsSerial(names: seq<byte>, region: seq<byte>, acts: seq<Action>)
    requires |names| == HEADER && Feasible(Init(names, region), acts)
    ensures MutexInv(Run(Init(names, region), acts))
    ensures MemInv(Run(Init(names, region), acts), names, region)
  {
    var s0 := Init(names, region);
    if acts == [] {
      assert s0.mem[..HEADER] == names && s0.mem[HEADER..] == region;
    } else {
      var before, a := acts[..|acts| - 1], acts[|acts| - 1];
      RunIsSerial(names, region, before);
      StepKeepsMutex(Run(s0, before), a);
      StepKeepsMem(Run(s0, before), a, names, region);
    }
  }

  /**
   For regions shorter than 2^32 - 1 bytes, a call that returned SHM_LOCK_FAILED has written
   nothing, and every other finished call, SHM_WRITE_TIMEOUT included, has written exactly once.
   */
  lemma {:induction false} CodesTellTheTruth(names: seq<byte>, region: seq<byte>, acts: seq<Action>)
    requires |names| == HEADER && Feasible(Init(names, region), acts) && |region| < LOCK_FAILED
    ensures CodeInv(Run(Init(names, region), acts), |region|)
  {
    var s0 := Init(names, region);
    if acts != [] {
      var before := acts[..|acts| - 1];
      CodesTellTheTruth(names, region, before);
      RunIsSerial(names, region, before);
      StepKeepsCodes(Run(s0, before), acts[|acts| - 1], |region|);
    }
  }

  // ----- the calls write and return what they were called for

  /** The data and kind of a call that got the mutex. */
  datatype Request = Request(data: seq<byte>, skip: bool)

  function Asked(acts: seq<Action>, id: nat): Option<Request> {
    if acts == [] then None
    else
      var a := acts[|acts| - 1];
      if a.LockOk? && a.id == id then Some(Request(a.data, a.skip)) else Asked(acts[..|acts| - 1], id)
  }

  /** The writes, in the order of the unlocks. */
  function WritesAsked(acts: seq<Action>): seq<Write> {
    if acts == [] then []
    else
      var before, a := acts[..|acts| - 1], acts[|acts| - 1];
      WritesAsked(before) +
      if a.Unlock? && Asked(before, a.id).Some? then [Write(a.id, Asked(before, a.id).value.data)] else []
  }

  /** What a call that got the mutex returns for a region of `len` bytes. */
  function CodeFor(r: Request, acked: bool, len: nat): nat {
    var n := Written(|r.data|, len);
    if r.skip && !acked && n < 0x8000_0000 then WRITE_TIMEOUT else n
  }

  /** The code of a finished call. */
  function CodeAsked(acts: seq<Action>, id: nat, len: nat): Option<nat> {
    if acts == [] then None
    else
      var before, a := acts[..|acts| - 1], acts[|acts| - 1];
      if a == LockTimeout(id) then Some(LOCK_FAILED)
      else if a.Return? && a.id == id && Asked(before, id).Some? then
        Some(CodeFor(Asked(before, id).value, a.acked, len))
      else CodeAsked(before, id, len)
  }

  ghost predicate CallAsked(c: Call, r: Option<Request>, len: nat) {
    && r.Some? && c.skip == r.value.skip
    && match c
       case Copying(data, _, _) => data == r.value.data
       case Unlocked(n, _) => n == Min(|r.value.data|, len)
  }

  ghost predicate AsAsked(s: State, acts: seq<Action>, len: nat) {
    && s.Len() == len
    && (forall id :: id in s.calls ==> CallAsked(s.calls[id], Asked(acts, id), len))
    && (forall id :: id in s.returned ==> CodeAsked(acts, id, len) == Some(s.returned[id]))
    && s.writes == WritesAsked(acts)
  }

  lemma OneMore(before: seq<Action>, a: Action, id: nat, len: nat)
    ensures var acts := before + [a];
      && Asked(acts, id) == (if a.LockOk? && a.id == id then Some(Request(a.data, a.skip)) else Asked(before, id))
      && CodeAsked(acts, id, len) ==
         (if a == LockTimeout(id) then Some(LOCK_FAILED)
          else if a.Return? && a.id == id && Asked(before, id).Some? then
            Some(CodeFor(Asked(before, id).value, a.acked, len))
          else CodeAsked(before, id, len))
      && WritesAsked(acts) == WritesAsked(before) +
         if a.Unlock? && Asked(before, a.id).Some? then [Write(a.id, Asked(before, a.id).value.data)] else []
  {
    assert (before + [a])[..|before + [a]| - 1] == before;
  }

  lemma StepAsAsked(s: State, before: seq<Action>, a: Action, len: nat)
    requires AsAsked(s, before, len) && MutexInv(s) && Enabled(s, a)
    ensures AsAsked(Step(s, a), before + [a], len)
  {
    var s' := Step(s, a);
    OneMore(before, a, a.id, len);
    if a.id in s.calls {
      assert CallAsked(s.calls[a.id], Asked(before, a.id), len);
    }
    forall id | id in s'.calls ensures CallAsked(s'.calls[id], Asked(before + [a], id), len) {
      OneMore(before, a, id, len);
    }
    forall id | id in s'.returned ensures CodeAsked(before + [a], id, len) == Some(s'.returned[id]) {
      OneMore(before, a, id, len);
    }
  }

  /**
   Over every run: the writes are, in the order of the unlocks, the data the calls were called
   with; a call that could not get the mutex has returned SHM_LOCK_FAILED, and any other the
   length of its data cut to the region, as a DWORD, or SHM_WRITE_TIMEOUT for a
   shm_write_or_skip that was not acknowledged.
   */
  lemma {:induction false} RunAsAsked(names: seq<byte>, region: seq<byte>, acts: seq<Action>)
    requires |names| == HEADER && Feasible(Init(names, region), acts)
    ensures AsAsked(Run(Init(names, region), acts), acts, |region|)
  {
    if acts != [] {
      var before, a := acts[..|acts| - 1], acts[|acts| - 1];
      RunAsAsked(names, region, before);
      RunIsSerial(names, region, before);
      StepAsAsked(Run(Init(names, region), before), before, a, |region|);
      assert before + [a] == acts;
    }
  }

  // ----- for larger regions they do not

  lemma RunSnoc(s: State, acts: seq<Action>, a: Action)
    requires Feasible(s, acts) && Enabled(Run(s, acts), a)
    ensures Feasible(s, acts + [a]) && Run(s, acts + [a]) == Step(Run(s, acts), a)
  {
    assert (acts + [a])[..|acts + [a]| - 1] == acts;
  }

  /** Alone, a call gets the mutex and copies `k` bytes. */
  lemma {:induction false} CopiesBytes(s: State, id: nat, data: seq<byte>, skip: bool, k: nat)
    returns (acts: seq<Action>)
    requires Enabled(s, LockOk(id, data, skip)) && k <= |data| && k <= s.Len()
    ensures Feasible(s, acts)
    ensures var s' := Run(s, acts);
      && s'.calls == s.calls[id := Copying(data, skip, k)] && s'.writes == s.writes
      && s'.returned == s.returned && |s'.mem| == |s.mem|
    decreases k
  {
    if k == 0 {
      RunSnoc(s, [], LockOk(id, data, skip));
      acts := [] + [LockOk(id, data, skip)];
    } else {
      var before := CopiesBytes(s, id, data, skip, k - 1);
      CopiesOneMore(Run(s, before), s.calls, id, data, skip, k - 1);
      RunSnoc(s, before, CopyByte(id));
      acts := before + [CopyByte(id)];
    }
  }

  lemma CopiesOneMore(s: State, calls: map<nat, Call>, id: nat, data: seq<byte>, skip: bool, k: nat)
    requires s.calls == calls[id := Copying(data, skip, k)] && k < |data| && k < s.Len()
    ensures Enabled(s, CopyByte(id))
    ensures var s' := Step(s, CopyByte(id));
      && s'.calls == calls[id := Copying(data, skip, k + 1)] && s'.writes == s.writes
      && s'.returned == s.returned && |s'.mem| == |s.mem|
  {
  }

  /** Then it unlocks and returns, acknowledged, the number of bytes as a DWORD. */
  lemma WritesAndReturns(s: State, id: nat, data: seq<byte>, skip: bool) returns (acts: seq<Action>)
    requires Enabled(s, LockOk(id, data, skip)) && |data| <= s.Len()
    ensures Feasible(s, acts)
    ensures var s' := Run(s, acts);
      && s'.returned == s.returned[id := |data| % 0x1_0000_0000] && id !in s'.calls
      && s'.writes == s.writes + [Write(id, data)]
  {
    acts := CopiesBytes(s, id, data, skip, |data|);
    RunSnoc(s, acts, Unlock(id));
    acts := acts + [Unlock(id)];
    RunSnoc(s, acts, Return(id, true));
    acts := acts + [Return(id, true)];
  }

  /** A region of 2^32 - 1 bytes or more takes a write whose byte count is SHM_LOCK_FAILED. */
  lemma FullWriteLooksLikeLockFailure(names: seq<byte>, region: seq<byte>, id: nat, data: seq<byte>)
    returns (acts: seq<Action>)
    requires |names| == HEADER && |data| == LOCK_FAILED <= |region|
    ensures Feasible(Init(names, region), acts)
    ensures var s := Run(Init(names, region), acts);
      id !in s.calls && id in s.returned && s.returned[id] == LOCK_FAILED && Count(s.writes, id) == 1
  {
    acts := WritesAndReturns(Init(names, region), id, data, false);
    var writes := Run(Init(names, region), acts).writes;
    assert writes == [Write(id, data)] && writes[..|writes| - 1] == [];
  }

  /** The codes tell the truth in every run if and only if the region is shorter than that. */
  lemma CodesTellTheTruthIff(names: seq<byte>, region: seq<byte>)
    requires |names| == HEADER
    ensures (forall acts :: Feasible(Init(names, region), acts) ==>
               CodeInv(Run(Init(names, region), acts), |region|)) <==>
            |region| < LOCK_FAILED
  {
    if |region| < LOCK_FAILED {
      forall acts | Feasible(Init(names, region), acts)
        ensures CodeInv(Run(Init(names, region), acts), |region|)
      {
        CodesTellTheTruth(names, region, acts);
      }
    } else {
      var acts := FullWriteLooksLikeLockFailure(names, region, 0, region[..LOCK_FAILED]);
      assert !CodeInv(Run(Init(names, region), acts), |region|);
    }
  }
}
