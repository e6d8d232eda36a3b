/**
 One publisher (acl_do_update) and any number of readers (acl_filter) on the shared list, step
 by step. The publisher overwrites the length and then one entry after the other; a reader
 fetches the length and then looks at one entry after the other. What keeps them apart is the
 slim reader/writer lock.
 */
module AclProtocol {
  import opened Wrappers
  import opened Acl
  import opened AclFilter
  import opened AclUpdate

  type Tid = nat

  datatype Publisher =
    | Idle
    | Locked(table: seq<Entry>)
    | Copying(table: seq<Entry>, done: nat)

  /** A reader's query, and `version`, the index of the table that was current when it got the
      lock. */
  datatype Query = Query(hwType: byte, addr: seq<byte>, version: nat)

  datatype Reader =
    | Entered(q: Query)
    | Scanning(q: Query, len: nat, i: nat)
    | Returning(q: Query, access: int)

  datatype Answer = Answer(q: Query, access: int)

  /** Every table so far, the initial empty one first. */
  type History = h: seq<seq<Entry>> | h != [] witness [[]]

  datatype State = State(
    length: nat,
    entry: seq<Entry>,
    writer: bool,             // the lock is held exclusively
    holders: set<Tid>,        // the threads that hold it shared
    pub: Publisher,
    readers: map<Tid, Reader>,
    published: History,
    answers: seq<Answer>)

  datatype Action =
    | PubAcquire(rows: seq<Row>, table: seq<Entry>)
    | PubLength
    | PubCopy
    | PubRelease
    | RdAcquire(t: Tid, hwType: byte, addr: seq<byte>)
    | RdLength(t: Tid)
    | RdTest(t: Tid)
    | RdRelease(t: Tid)

  function Init(): State {
    State(0, seq(MAX_ENTRIES, _ => ZERO_ENTRY), false, {}, Idle, map[], [[]], [])
  }

  ghost predicate Enabled(s: State, a: Action) {
    match a
    case PubAcquire(rows, table) =>
      s.pub.Idle? && !s.writer && s.holders == {} && IsQsortOf(Loaded(rows), table)
    case PubLength => s.pub.Locked?
    case PubCopy => s.pub.Copying? && s.pub.done < |s.pub.table| && s.pub.done < |s.entry|
    case PubRelease => s.pub.Copying? && s.pub.done == |s.pub.table|
    case RdAcquire(t, _, addr) => !s.writer && t !in s.readers && |addr| <= 16
    case RdLength(t) => t in s.readers && s.readers[t].Entered?
    case RdTest(t) => t in s.readers && s.readers[t].Scanning? && |s.readers[t].q.addr| <= 16
    case RdRelease(t) => t in s.readers && s.readers[t].Returning?
  }

  ghost function Step(s: State, a: Action): State
    requires Enabled(s, a)
  {
    match a
    case PubAcquire(_, table) => s.(writer := true, pub := Locked(table))
    case PubLength => s.(length := |s.pub.table|, pub := Copying(s.pub.table, 0))
    case PubCopy =>
      var k := s.pub.done;
      s.(entry := s.entry[k := s.pub.table[k]], pub := Copying(s.pub.table, k + 1))
    case PubRelease => s.(writer := false, pub := Idle, published := s.published + [s.pub.table])
    case RdAcquire(t, hwType, addr) =>
      s.(holders := s.holders + {t},
         readers := s.readers[t := Entered(Query(hwType, addr, |s.published| - 1))])
    case RdLength(t) =>
      s.(readers := s.readers[t := Scanning(s.readers[t].q, s.length, 0)])
    case RdTest(t) => s.(readers := s.readers[t := Test(s, s.readers[t])])
    case RdRelease(t) =>
      s.(holders := s.holders - {t}, readers := s.readers - {t},
         answers := s.answers + [Answer(s.readers[t].q, s.readers[t].access)])
  }

  /** One round of the filter's outer loop. */
  function Test(s: State, r: Reader): Reader
    requires r.Scanning? && |r.q.addr| <= 16
  {
    if r.i >= r.len || r.i >= |s.entry| then Returning(r.q, ACCESS_PERMIT)
    else if Matches(s.entry[r.i], r.q.hwType, r.q.addr) then Returning(r.q, s.entry[r.i].access)
    else Scanning(r.q, r.len, r.i + 1)
  }

  ghost predicate Feasible(acts: seq<Action>)
    decreases |acts|, 0
  {
    acts == [] || (Feasible(acts[..|acts| - 1]) && Enabled(Run(acts[..|acts| - 1]), acts[|acts| - 1]))
  }

  ghost function Run(acts: seq<Action>): State
    requires Feasible(acts)
    decreases |acts|, 1
  {
    if acts == [] then Init() else Step(Run(acts[..|acts| - 1]), acts[|acts| - 1])
  }

  // ----- the invariant

  ghost predicate TableOk(table: seq<Entry>) {
    |table| <= MAX_ENTRIES && Sorted(table)
  }

  ghost predicate PublisherInv(s: State)
    requires |s.entry| == MAX_ENTRIES
  {
    match s.pub
    case Idle => !s.writer && s.length <= |s.entry| && s.entry[..s.length] == s.published[|s.published| - 1]
    case Locked(table) => s.writer && TableOk(table)
    case Copying(table, done) =>
      s.writer && TableOk(table) && s.length == |table| && done <= |table| && s.entry[..done] == table[..done]
  }

  /** A reader inside the lock works on the current table, which has been current since it
      entered, and has met no match so far. */
  ghost predicate ReaderInv(current: seq<Entry>, version: nat, r: Reader) {
    && |r.q.addr| <= 16 && r.q.version == version
    && match r
       case Entered(_) => true
       case Scanning(q, len, i) =>
         len == |current| && i <= len && First(current[i..], q.hwType, q.addr) == First(current, q.hwType, q.addr)
       case Returning(q, access) => access == Decision(current, q.hwType, q.addr)
  }

  ghost predicate AnswerOk(published: seq<seq<Entry>>, a: Answer) {
    && |a.q.addr| <= 16 && a.q.version < |published|
    && a.access == Decision(published[a.q.version], a.q.hwType, a.q.addr)
  }

  ghost predicate Shape(s: State) {
    && |s.entry| == MAX_ENTRIES
    && s.published[0] == []
    && (forall v :: 0 <= v < |s.published| ==> TableOk(s.published[v]))
    && s.holders == s.readers.Keys
    && (s.writer ==> s.readers == map[])
  }

  ghost predicate Inv(s: State) {
    && Shape(s) && PublisherInv(s)
    && (forall t :: t in s.readers ==>
          ReaderInv(s.published[|s.published| - 1], |s.published| - 1, s.readers[t]))
    && (forall i :: 0 <= i < |s.answers| ==> AnswerOk(s.published, s.answers[i]))
    && (forall i, j :: 0 <= i < j < |s.answers| ==> s.answers[i].q.version <= s.answers[j].q.version)
  }

  lemma TestKeepsReaderInv(s: State, t: Tid)
    requires Inv(s) && Enabled(s, RdTest(t))
    ensures ReaderInv(s.published[|s.published| - 1], |s.published| - 1, Test(s, s.readers[t]))
  {
    var current := s.published[|s.published| - 1];
    var r := s.readers[t];
    assert s.pub.Idle?;
    if r.i < r.len {
      assert s.entry[r.i] == current[r.i];
      FirstAt(current, r.i, r.q.hwType, r.q.addr);
    } else {
      assert current[r.i..] == [];
    }
  }

  lemma QsortedIsOk(rows: seq<Row>, table: seq<Entry>)
    requires IsQsortOf(Loaded(rows), table)
    ensures TableOk(table)
  {
    assert |table| == |multiset(table)| == |multiset(Loaded(rows))|;
  }

  lemma PublisherStep(s: State, a: Action)
    requires Inv(s) && Enabled(s, a)
    requires a.PubAcquire? || a.PubLength? || a.PubCopy? || a.PubRelease?
    ensures Inv(Step(s, a))
  {
    var s' := Step(s, a);
    match a
    case PubAcquire(rows, table) => QsortedIsOk(rows, table);
    case PubLength =>
    case PubCopy =>
      var k := s.pub.done;
      assert s'.entry[..k + 1] == s.entry[..k] + [s.pub.table[k]];
      assert s.pub.table[..k + 1] == s.pub.table[..k] + [s.pub.table[k]];
    case PubRelease =>
      assert s.pub.table[..|s.pub.table|] == s.pub.table;
      assert forall i :: 0 <= i < |s.answers| ==> AnswerOk(s.published, s.answers[i]);
  }

  lemma ReaderStep(s: State, a: Action)
    requires Inv(s) && Enabled(s, a)
    requires a.RdAcquire? || a.RdLength? || a.RdTest? || a.RdRelease?
    ensures Inv(Step(s, a))
  {
    var s' := Step(s, a);
    var current := s.published[|s.published| - 1];
    match a
    case RdAcquire(t, _, _) =>
    case RdLength(t) =>
      assert s.pub.Idle?;
      assert current[0..] == current;
    case RdTest(t) => TestKeepsReaderInv(s, t);
    case RdRelease(t) =>
  }

  /**
   In every interleaving of one publisher and any number of readers, every answer is the answer
   on one whole published table, the one that was current from the reader's first step to its
   last; every table is sorted and has at most 2048 entries, the first being the empty one.
   */
  lemma {:induction false} RunKeepsInv(acts: seq<Action>)
    requires Feasible(acts)
    ensures Inv(Run(acts))
  {
    if acts == [] {
      assert Init().entry[..0] == [];
    } else {
      var before, a := acts[..|acts| - 1], acts[|acts| - 1];
      RunKeepsInv(before);
      if a.PubAcquire? || a.PubLength? || a.PubCopy? || a.PubRelease? {
        PublisherStep(Run(before), a);
      } else {
        ReaderStep(Run(before), a);
      }
    }
  }

  /** Before the first publication every query is permitted. */
  lemma EmptyTablePermits(acts: seq<Action>, i: nat)
    requires Feasible(acts) && i < |Run(acts).answers| && Run(acts).answers[i].q.version == 0
    ensures Run(acts).answers[i].access == ACCESS_PERMIT
  {
    RunKeepsInv(acts);
    assert AnswerOk(Run(acts).published, Run(acts).answers[i]);
  }

  // ----- the sequential specification: updates and queries, one at a time

  /** The tables of the updates begun so far, in order. */
  function Tables(acts: seq<Action>): seq<seq<Entry>> {
    if acts == [] then []
    else
      var a := acts[|acts| - 1];
      Tables(acts[..|acts| - 1]) + if a.PubAcquire? then [a.table] else []
  }

  /** The rows that those updates read from the database. */
  function RowsRead(acts: seq<Action>): seq<seq<Row>> {
    if acts == [] then []
    else
      var a := acts[|acts| - 1];
      RowsRead(acts[..|acts| - 1]) + if a.PubAcquire? then [a.rows] else []
  }

  /** The table of the latest update, the empty one before the first. */
  function Latest(acts: seq<Action>): seq<Entry> {
    var tables := Tables(acts);
    if tables == [] then [] else tables[|tables| - 1]
  }

  /** The answer on the table that is the latest when the thread's latest query gets the lock. */
  function Asked(acts: seq<Action>, t: Tid): Option<Answer> {
    if acts == [] then None
    else
      var before, a := acts[..|acts| - 1], acts[|acts| - 1];
      if a.RdAcquire? && a.t == t then
        if |a.addr| <= 16 then
          Some(Answer(Query(a.hwType, a.addr, |Tables(before)|), Decision(Latest(before), a.hwType, a.addr)))
        else None
      else Asked(before, t)
  }

  /** The answers of the queries that have ended, in that order. */
  function Expected(acts: seq<Action>): seq<Answer> {
    if acts == [] then []
    else
      var before, a := acts[..|acts| - 1], acts[|acts| - 1];
      Expected(before) +
      if a.RdRelease? && Asked(before, a.t).Some? then [Asked(before, a.t).value] else []
  }

  /** The tables that have been published or are being published are those of the updates. */
  ghost predicate PublishesTables(s: State, tables: seq<seq<Entry>>) {
    match s.pub
    case Idle => s.published == [[]] + tables
    case Locked(table) => s.published + [table] == [[]] + tables
    case Copying(table, _) => s.published + [table] == [[]] + tables
  }

  /** A reader inside the lock is about to give the answer it owes. */
  ghost predicate Owes(s: State, r: Reader, owed: Option<Answer>) {
    && |r.q.addr| <= 16
    && owed == Some(Answer(r.q, Decision(s.published[|s.published| - 1], r.q.hwType, r.q.addr)))
  }

  ghost predicate Serial(s: State, acts: seq<Action>) {
    && PublishesTables(s, Tables(acts))
    && (forall t :: t in s.readers ==> Owes(s, s.readers[t], Asked(acts, t)))
    && s.answers == Expected(acts)
  }

  lemma OneMore(before: seq<Action>, a: Action, t: Tid)
    ensures var acts := before + [a];
      && Tables(acts) == Tables(before) + (if a.PubAcquire? then [a.table] else [])
      && Expected(acts) == Expected(before) +
         (if a.RdRelease? && Asked(before, a.t).Some? then [Asked(before, a.t).value] else [])
      && (!(a.RdAcquire? && a.t == t) ==> Asked(acts, t) == Asked(before, t))
  {
    assert (before + [a])[..|before + [a]| - 1] == before;
  }

  /** A query gets the lock only between updates, so it works on the latest table. */
  lemma AcquireOwes(s: State, before: seq<Action>, a: Action)
    requires Inv(s) && Serial(s, before) && a.RdAcquire? && Enabled(s, a)
    ensures Owes(Step(s, a), Step(s, a).readers[a.t], Asked(before + [a], a.t))
  {
    assert (before + [a])[..|before + [a]| - 1] == before;
    assert s.pub.Idle?;
    assert s.published[|s.published| - 1] == Latest(before);
  }

  lemma PublisherStepSerial(s: State, before: seq<Action>, a: Action)
    requires Inv(s) && Serial(s, before) && Enabled(s, a)
    requires a.PubAcquire? || a.PubLength? || a.PubCopy? || a.PubRelease?
    ensures Serial(Step(s, a), before + [a])
  {
    var s' := Step(s, a);
    OneMore(before, a, 0);
    assert s'.readers == map[];
    if a.PubAcquire? {
      assert [[]] + Tables(before) + [a.table] == [[]] + (Tables(before) + [a.table]);
    }
  }

  predicate ByReader(a: Action) {
    a.RdAcquire? || a.RdLength? || a.RdTest? || a.RdRelease?
  }

  /** Apart from getting in, a reader's query stays what it is while it is inside. */
  lemma KeepsQuery(s: State, a: Action, t: Tid)
    requires Enabled(s, a) && ByReader(a) && t in Step(s, a).readers && !(a.RdAcquire? && a.t == t)
    ensures t in s.readers && Step(s, a).readers[t].q == s.readers[t].q
    ensures Step(s, a).published == s.published
  {
  }

  /** Other readers, and this one until it returns, go on owing what they owed. */
  lemma ReaderStepOwes(s: State, before: seq<Action>, a: Action, t: Tid)
    requires Inv(s) && Serial(s, before) && Enabled(s, a) && ByReader(a) && t in Step(s, a).readers
    ensures Owes(Step(s, a), Step(s, a).readers[t], Asked(before + [a], t))
  {
    if a.RdAcquire? && a.t == t {
      AcquireOwes(s, before, a);
    } else {
      KeepsQuery(s, a, t);
      AskedStays(before, a, t);
      assert Owes(s, s.readers[t], Asked(before, t));
    }
  }

  lemma AskedStays(before: seq<Action>, a: Action, t: Tid)
    requires !(a.RdAcquire? && a.t == t)
    ensures Asked(before + [a], t) == Asked(before, t)
  {
    assert (before + [a])[..|before + [a]| - 1] == before;
  }

  lemma ReaderStepAnswers(s: State, before: seq<Action>, a: Action)
    requires Inv(s) && Serial(s, before) && Enabled(s, a) && ByReader(a)
    ensures Step(s, a).answers == Expected(before + [a])
  {
    OneMore(before, a, a.t);
    if a.RdRelease? {
      assert Owes(s, s.readers[a.t], Asked(before, a.t));
      assert ReaderInv(s.published[|s.published| - 1], |s.published| - 1, s.readers[a.t]);
    }
  }

  lemma ReaderStepSerial(s: State, before: seq<Action>, a: Action)
    requires Inv(s) && Serial(s, before) && Enabled(s, a) && ByReader(a)
    ensures Serial(Step(s, a), before + [a])
  {
    OneMore(before, a, a.t);
    assert PublishesTables(Step(s, a), Tables(before));
    ReaderStepAnswers(s, before, a);
    forall t | t in Step(s, a).readers ensures Owes(Step(s, a), Step(s, a).readers[t], Asked(before + [a], t)) {
      ReaderStepOwes(s, before, a, t);
    }
  }

  /**
   Every interleaving of one publisher and any number of readers is equivalent to updates and
   queries one at a time: the published tables are those of the updates, in order, and each query
   has been answered, for the type and address it was asked with, by the latest of them when it
   got the lock.
   */
  lemma {:induction false} RunIsSerial(acts: seq<Action>)
    requires Feasible(acts)
    ensures Serial(Run(acts), acts)
  {
    if acts != [] {
      var before, a := acts[..|acts| - 1], acts[|acts| - 1];
      RunIsSerial(before);
      RunKeepsInv(before);
      if a.PubAcquire? || a.PubLength? || a.PubCopy? || a.PubRelease? {
        PublisherStepSerial(Run(before), before, a);
      } else {
        ReaderStepSerial(Run(before), before, a);
      }
      assert before + [a] == acts;
    }
  }

  /** Each of those tables is a sort of the rows its update loaded. */
  lemma {:induction false} TablesAreSortedRows(acts: seq<Action>)
    requires Feasible(acts)
    ensures |Tables(acts)| == |RowsRead(acts)|
    ensures forall v :: 0 <= v < |Tables(acts)| ==> IsQsortOf(Loaded(RowsRead(acts)[v]), Tables(acts)[v])
  {
    if acts != [] {
      TablesAreSortedRows(acts[..|acts| - 1]);
    }
  }

  // ----- updates and queries can always be completed

  /** The actions can be taken one after the other, from one state to the other. */
  ghost predicate Leads(s: State, acts: seq<Action>, s': State)
    decreases |acts|
  {
    if acts == [] then s == s' else Enabled(s, acts[0]) && Leads(Step(s, acts[0]), acts[1..], s')
  }

  lemma LeadsCons(s: State, a: Action, acts: seq<Action>, s': State)
    requires Enabled(s, a) && Leads(Step(s, a), acts, s')
    ensures Leads(s, [a] + acts, s')
  {
    assert ([a] + acts)[1..] == acts;
  }

  lemma RunSnoc(acts: seq<Action>, a: Action)
    requires Feasible(acts) && Enabled(Run(acts), a)
    ensures Feasible(acts + [a]) && Run(acts + [a]) == Step(Run(acts), a)
  {
    assert (acts + [a])[..|acts + [a]| - 1] == acts;
  }

  /** So a run can be continued with them, to `all`. */
  lemma {:induction false} LeadsOn(past: seq<Action>, acts: seq<Action>, s': State, all: seq<Action>)
    requires Feasible(past) && Leads(Run(past), acts, s') && all == past + acts
    ensures Feasible(all) && Run(all) == s'
    decreases |acts|
  {
    if acts == [] {
      assert all == past;
    } else {
      RunSnoc(past, acts[0]);
      assert all == (past + [acts[0]]) + acts[1..];
      LeadsOn(past + [acts[0]], acts[1..], s', all);
    }
  }

  /** The rest of an update: the table is copied, entry by entry, and published. */
  lemma {:induction false} FinishUpdate(s: State, table: seq<Entry>, k: nat) returns (acts: seq<Action>, s': State)
    requires Inv(s) && s.pub == Copying(table, k) && k <= |table|
    ensures Leads(s, acts, s') && s'.pub.Idle? && s'.published == s.published + [table]
    decreases |table| - k
  {
    var a := if k == |table| then PubRelease else PubCopy;
    if k == |table| {
      acts, s' := [], Step(s, a);
    } else {
      PublisherStep(s, a);
      acts, s' := FinishUpdate(Step(s, a), table, k + 1);
    }
    LeadsCons(s, a, acts, s');
    acts := [a] + acts;
  }

  /** With no one inside the lock, an update of any rows goes through, and its table is published. */
  lemma UpdateTakesEffect(past: seq<Action>, rows: seq<Row>, table: seq<Entry>) returns (more: seq<Action>)
    requires Feasible(past) && Run(past).pub.Idle? && Run(past).readers == map[]
    requires IsQsortOf(Loaded(rows), table)
    ensures Feasible(past + more) && Run(past + more).pub.Idle?
    ensures Run(past + more).published == Run(past).published + [table]
  {
    RunKeepsInv(past);
    var s';
    more, s' := WholeUpdate(Run(past), rows, table);
    LeadsOn(past, more, s', past + more);
  }

  lemma WholeUpdate(s: State, rows: seq<Row>, table: seq<Entry>) returns (acts: seq<Action>, s': State)
    requires Inv(s) && s.pub.Idle? && s.readers == map[] && IsQsortOf(Loaded(rows), table)
    ensures Leads(s, acts, s') && s'.pub.Idle? && s'.published == s.published + [table]
  {
    var a := PubAcquire(rows, table);
    var s1 := Step(s, a);
    PublisherStep(s, a);
    PublisherStep(s1, PubLength);
    acts, s' := FinishUpdate(Step(s1, PubLength), table, 0);
    LeadsCons(s1, PubLength, acts, s');
    acts := [PubLength] + acts;
    LeadsCons(s, a, acts, s');
    acts := [a] + acts;
  }

  /** One more answer: to this query, on the table current in `s`. */
  ghost predicate Answers(s: State, s': State, hwType: byte, addr: seq<byte>)
    requires |addr| <= 16
  {
    && |s'.answers| == |s.answers| + 1
    && var answer := s'.answers[|s.answers|];
    && answer.q.hwType == hwType && answer.q.addr == addr
    && answer.access == Decision(s.published[|s.published| - 1], hwType, addr)
  }

  lemma ReleaseAnswers(s: State, t: Tid, hwType: byte, addr: seq<byte>)
    requires Inv(s) && t in s.readers && s.readers[t].Returning? && |addr| <= 16
    requires s.readers[t].q.hwType == hwType && s.readers[t].q.addr == addr
    ensures Enabled(s, RdRelease(t)) && Answers(s, Step(s, RdRelease(t)), hwType, addr)
  {
    assert ReaderInv(s.published[|s.published| - 1], |s.published| - 1, s.readers[t]);
  }

  function Left(r: Reader): nat {
    if r.Scanning? && r.i <= r.len then r.len - r.i + 1 else 0
  }

  lemma ScanOn(s: State, t: Tid)
    requires Inv(s) && t in s.readers && s.readers[t].Scanning?
    ensures Enabled(s, RdTest(t)) && Inv(Step(s, RdTest(t)))
    ensures var s' := Step(s, RdTest(t));
      && s'.published == s.published && s'.answers == s.answers && t in s'.readers
      && !s'.readers[t].Entered? && s'.readers[t].q == s.readers[t].q
      && Left(s'.readers[t]) < Left(s.readers[t])
  {
    assert ReaderInv(s.published[|s.published| - 1], |s.published| - 1, s.readers[t]);
    ReaderStep(s, RdTest(t));
  }

  /** The rest of a query: the table is scanned, entry by entry, and the answer given. */
  lemma {:induction false} FinishQuery(s: State, t: Tid, hwType: byte, addr: seq<byte>)
    returns (acts: seq<Action>, s': State)
    requires Inv(s) && t in s.readers && !s.readers[t].Entered? && |addr| <= 16
    requires s.readers[t].q.hwType == hwType && s.readers[t].q.addr == addr
    ensures Leads(s, acts, s') && Answers(s, s', hwType, addr)
    decreases Left(s.readers[t])
  {
    if s.readers[t].Scanning? {
      ScanOn(s, t);
      acts, s' := FinishQuery(Step(s, RdTest(t)), t, hwType, addr);
      LeadsCons(s, RdTest(t), acts, s');
      acts := [RdTest(t)] + acts;
    } else {
      ReleaseAnswers(s, t, hwType, addr);
      s' := Step(s, RdRelease(t));
      LeadsCons(s, RdRelease(t), [], s');
      acts := [RdRelease(t)] + [];
    }
  }

  lemma WholeQuery(s: State, t: Tid, hwType: byte, addr: seq<byte>) returns (acts: seq<Action>, s': State)
    requires Inv(s) && s.pub.Idle? && t !in s.readers && |addr| <= 16
    ensures Leads(s, acts, s') && Answers(s, s', hwType, addr)
  {
    var a, b := RdAcquire(t, hwType, addr), RdLength(t);
    var s1 := Step(s, a);
    ReaderStep(s, a);
    ReaderStep(s1, b);
    acts, s' := FinishQuery(Step(s1, b), t, hwType, addr);
    LeadsCons(s1, b, acts, s');
    acts := [b] + acts;
    LeadsCons(s, a, acts, s');
    acts := [a] + acts;
  }

  /** Unless an update holds the lock, a query by any thread outside goes through, and is answered
      by the current table. */
  lemma QueryIsAnswered(past: seq<Action>, t: Tid, hwType: byte, addr: seq<byte>) returns (more: seq<Action>)
    requires Feasible(past) && Run(past).pub.Idle? && t !in Run(past).readers && |addr| <= 16
    ensures Feasible(past + more) && Answers(Run(past), Run(past + more), hwType, addr)
  {
    RunKeepsInv(past);
    var s';
    more, s' := WholeQuery(Run(past), t, hwType, addr);
    LeadsOn(past, more, s', past + more);
  }
}
