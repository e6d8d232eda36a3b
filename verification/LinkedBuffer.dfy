/**
 The heap code of Monitor/linked_buffer.cpp: a singly linked queue from `head` to `tail`, a
 lock and an auto-reset event. A fresh entry's `next` is never initialised, so the list ends
 at `tail` and nowhere else.
 */
module LinkedBuffer {
  import opened Wrappers
  import opened BufferProtocol
  import BufferOutcomes

  class Entry {
    var ptr: Ptr
    var next: Entry?

    /** malloc: `next` starts out as whatever the memory held. */
    constructor (data: Ptr, junk: Entry?)
      ensures ptr == data && next == junk
    {
      ptr, next := data, junk;
    }
  }

  class Buffer {
    const maxSize: nat
    var size: nat
    var head: Entry?
    var tail: Entry?
    var evt: bool
    var owner: Option<Tid>

    /** The entries from head to tail, and the data they hold. */
    ghost var nodes: seq<Entry>
    ghost var contents: seq<Ptr>

    ghost predicate Valid()
      reads this, nodes
    {
      && size == |nodes| == |contents| <= maxSize
      && (head == null <==> size == 0) && (tail == null <==> size == 0)
      && (size > 0 ==> head == nodes[0] && tail == nodes[size - 1])
      && (forall i :: 0 <= i < size ==> nodes[i].ptr == contents[i])
      && (forall i, j :: 0 <= i < j < size ==> nodes[i] != nodes[j])
      && (forall i {:trigger nodes[i].next} :: 0 <= i < size - 1 ==> nodes[i].next == nodes[i + 1])
    }

    constructor (maxSize: nat)
      ensures Valid() && contents == [] && this.maxSize == maxSize && !evt && owner.None?
      ensures nodes == []
    {
      this.maxSize := maxSize;
      size, head, tail, evt, owner := 0, null, null, false, None;
      nodes, contents := [], [];
    }

    /** Lines 17-28 of buffer_add_tail, under the lock. */
    method Link(data: Ptr, mallocOk: bool, junk: Entry?) returns (ok: bool)
      requires Valid()
      modifies this`size, this`head, this`tail, this`nodes, this`contents, nodes
      ensures Valid() && fresh(set n | n in nodes && n !in old(nodes))
      ensures ok <==> old(size) < maxSize && mallocOk
      ensures contents == if ok then old(contents) + [data] else old(contents)
    {
      if size >= maxSize { return false; }
      if !mallocOk { return false; }
      var entry := new Entry(data, junk);
      if tail != null {
        tail.next := entry;
        tail := entry;
      } else {
        head := entry;
        tail := entry;
      }
      size := size + 1;
      nodes, contents := nodes + [entry], contents + [data];
      return true;
    }

    /** Lines 41-53 of buffer_remove_head, under the lock. */
    method Unlink() returns (ret: Ptr, found: bool)
      requires Valid()
      modifies this`size, this`head, this`tail, this`nodes, this`contents
      ensures Valid() && (forall n :: n in nodes ==> n in old(nodes))
      ensures found <==> old(contents) != []
      ensures found ==> old(contents) == [ret] + contents
      ensures !found ==> ret == NULL && contents == []
    {
      var entry := head;
      if entry != null {
        ret := entry.ptr;
        if tail == entry {
          head, tail := null, null;
        } else {
          head := entry.next;
        }
        size := size - 1;
        nodes, contents := nodes[1..], contents[1..];
        return ret, true;
      }
      return NULL, false;
    }

    /** buffer_add_tail when no one holds the lock. */
    method AddTail(t: Tid, data: Ptr, mallocOk: bool, junk: Entry?) returns (ok: bool)
      requires Valid() && owner.None?
      modifies this, nodes
      ensures Valid() && owner.None?
      ensures ok <==> old(size) < maxSize && mallocOk
      ensures contents == if ok then old(contents) + [data] else old(contents)
      ensures evt == (ok || old(evt))
    {
      owner := Some(t);
      ok := Link(data, mallocOk, junk);
      if ok {
        evt := true;
      }
      owner := None;
    }

    /** buffer_remove_head when no one holds the lock. `signalled` is the result of the wait. */
    method RemoveHead(t: Tid, signalled: bool) returns (ret: Ptr)
      requires Valid() && owner.None? && (signalled ==> evt)
      modifies this
      ensures Valid() && owner.None?
      ensures evt == (old(evt) && !signalled)
      ensures signalled && old(contents) != [] ==> old(contents) == [ret] + contents
      ensures !signalled || old(contents) == [] ==> ret == NULL && contents == old(contents)
    {
      if !signalled {
        return NULL;
      }
      evt := false;
      owner := Some(t);
      var found;
      ret, found := Unlink();
      owner := None;
    }
  }

  /**
   A buffer together with the threads that are inside its calls. `Do` performs one step of one
   thread with the heap code above, in whatever order the scheduler picks.
   */
  class System {
    const buf: Buffer
    var pcs: map<Tid, Pc>
    ghost var log: seq<Outcome>
    ghost var trace: seq<Action>

    ghost function View(): State
      reads this, buf
    {
      State(buf.maxSize, buf.contents, buf.evt, buf.owner, pcs, log)
    }

    /** The heap is well formed and stands where the protocol stands after the same actions. */
    ghost predicate Valid()
      reads this, buf, buf.nodes
    {
      buf.Valid() && Feasible(Init(buf.maxSize), trace) && View() == Run(Init(buf.maxSize), trace)
    }

    constructor (maxSize: nat)
      ensures Valid() && buf.maxSize == maxSize && trace == []
      ensures fresh(buf)
    {
      buf := new Buffer(maxSize);
      pcs, log, trace := map[], [], [];
    }

    /** The steps that leave the list alone. */
    method Synchronize(a: Action)
      requires buf.Valid() && Enabled(View(), a) && !a.AddLink? && !a.RemoveUnlink?
      modifies this`pcs, this`log, buf`evt, buf`owner
      ensures buf.Valid() && View() == Step(old(View()), a)
    {
      match a {
        case AddAcquire(t, data) =>
          buf.owner := Some(t);
          pcs := pcs[t := AddLocked(data)];
        case AddSignal(t) =>
          buf.evt := true;
          pcs := pcs[t := AddReturning(pcs[t].data, true)];
        case AddRelease(t) =>
          buf.owner := None;
          log := log + [Added(t, pcs[t].data, pcs[t].ok)];
          pcs := pcs - {t};
        case WaitFail(t) =>
          log := log + [Removed(t, NULL, false)];
        case WaitSuccess(t) =>
          buf.evt := false;
          pcs := pcs[t := Woken];
        case RemoveAcquire(t) =>
          buf.owner := Some(t);
          pcs := pcs[t := RemoveLocked];
        case RemoveRelease(t) =>
          buf.owner := None;
          log := log + [Removed(t, pcs[t].ret, true)];
          pcs := pcs - {t};
      }
    }

    method LinkStep(t: Tid, mallocOk: bool, junk: Entry?)
      requires buf.Valid() && Enabled(View(), AddLink(t, mallocOk))
      modifies this`pcs, buf, buf.nodes
      ensures buf.Valid() && View() == Step(old(View()), AddLink(t, mallocOk))
    {
      var data := pcs[t].data;
      var ok := buf.Link(data, mallocOk, junk);
      pcs := pcs[t := if ok then AddLinked(data) else AddReturning(data, false)];
    }

    method UnlinkStep(t: Tid)
      requires buf.Valid() && Enabled(View(), RemoveUnlink(t))
      modifies this`pcs, buf, buf.nodes
      ensures buf.Valid() && View() == Step(old(View()), RemoveUnlink(t))
    {
      var ret, found := buf.Unlink();
      pcs := pcs[t := RemoveReturning(ret, found)];
    }

    method Perform(a: Action, junk: Entry?)
      requires buf.Valid() && Enabled(View(), a)
      modifies this`pcs, this`log, buf, buf.nodes
      ensures buf.Valid() && View() == Step(old(View()), a)
    {
      match a {
        case AddLink(t, mallocOk) => LinkStep(t, mallocOk, junk);
        case RemoveUnlink(t) => UnlinkStep(t);
        case _ => Synchronize(a);
      }
    }

    /** One step of one thread on the heap is the same step of the protocol. */
    method Do(a: Action, junk: Entry?)
      requires Valid() && Enabled(View(), a)
      modifies this`pcs, this`log, this`trace, buf, buf.nodes
      ensures Valid() && trace == old(trace) + [a]
      ensures View() == Step(old(View()), a)
    {
      Perform(a, junk);
      RunSnoc(Init(buf.maxSize), trace, a);
      trace := trace + [a];
    }

    /** In every run of the heap code, the list is the content of the atomic bounded queue and the
        calls have returned its outcomes. */
    lemma HeapRefinesQueue()
      requires Valid()
      ensures buf.contents == BufferOutcomes.Queue(buf.maxSize, trace)
      ensures log == BufferOutcomes.Outcomes(buf.maxSize, trace)
    {
      BufferOutcomes.RunRefinesQueue(buf.maxSize, trace);
    }

    /** What every run of the heap code keeps. */
    lemma HeapKeepsInv()
      requires Valid()
      ensures Inv(View(), Hits(Init(buf.maxSize), trace))
      ensures buf.size == Pending(View()) + Unsignalled(View()) + Hits(Init(buf.maxSize), trace)
      ensures buf.size <= buf.maxSize && (buf.head == null <==> buf.size == 0)
      ensures buf.tail == null <==> buf.size == 0
      ensures Delivered(log) + Leaving(View()) + buf.contents == Accepted(log) + Entering(View())
    {
      RunKeepsInv(buf.maxSize, trace);
    }
  }
}
