/**
 The pool's queue as it is kept in memory: a singly linked list with head, tail and size, touched
 only under the queue lock.  Each section below is one lock-to-unlock (or lock-to-wait) stretch of
 the submit and worker functions.
 */
module WorkQueue {
  import ThreadPool

  class WorkItem {
    const item: ThreadPool.Item
    var next: WorkItem?

    constructor (item: ThreadPool.Item)
      ensures this.item == item && next == null
    {
      this.item := item;
      next := null;
    }
  }

  datatype Submitted = Rejected | Blocked | Enqueued
  datatype Worked = Park | Exit | Run(item: WorkItem)

  class Queue {
    var head: WorkItem?
    var tail: WorkItem?
    var size: nat
    var shutdown: bool
    const capacity: nat
    /** The linked items, oldest first. */
    ghost var nodes: seq<WorkItem>

    ghost predicate Valid()
      reads this, nodes
    {
      && size == |nodes|
      && (forall i, j :: 0 <= i < j < |nodes| ==> nodes[i] != nodes[j])
      && (|nodes| == 0 ==> head == null && tail == null)
      && (|nodes| > 0 ==> head == nodes[0] && tail == nodes[|nodes| - 1] && nodes[|nodes| - 1].next == null)
      && (forall i :: 0 <= i < |nodes| - 1 ==> nodes[i].next == nodes[i + 1])
    }

    ghost function Contents(): seq<ThreadPool.Item>
      reads this
    {
      seq(|nodes|, i requires 0 <= i < |nodes| reads this => nodes[i].item)
    }

    constructor (depth: nat)
      ensures Valid() && Contents() == [] && !shutdown && capacity == if depth > 0 then depth else 128
    {
      head, tail, size, shutdown, nodes := null, null, 0, false, [];
      capacity := if depth > 0 then depth else 128;
    }

    /** This queue is the one of pool state p. */
    ghost predicate Shows(p: ThreadPool.Pool)
      reads this
    {
      p.queue == Contents() && p.shutdown == shutdown && p.capacity == capacity
    }

    /** The section of thread_pool_submit, entered first or after a wake-up, is the submit step of the pool. */
    method SubmitSection(x: WorkItem, ghost p: ThreadPool.Pool, ghost woke: set<ThreadPool.Thread>)
      returns (r: Submitted)
      requires Valid() && x !in nodes && x.next == null && Shows(p)
      modifies this, nodes
      ensures r == if shutdown then Rejected else if old(|nodes|) >= capacity then Blocked else Enqueued
      ensures Valid() && nodes == if r == Enqueued then old(nodes) + [x] else old(nodes)
      ensures var q := ThreadPool.SubmitStep(p, x.item, woke);
              && Shows(q)
              && (r == Rejected ==> x.item in q.c.rejected)
              && (r == Blocked ==> x.item in q.c.blocked && q.c.accepted == p.c.accepted)
              && (r == Enqueued ==> q.c.accepted == p.c.accepted + [x.item])
    {
      if shutdown { return Rejected; }
      if size >= capacity { return Blocked; }
      if tail != null {
        tail.next := x;
      } else {
        head := x;
      }
      tail := x;
      size := size + 1;
      nodes := nodes + [x];
      r := Enqueued;
    }

    /** The section of thread_pool_worker, entered first or after a wake-up, is the work step of the pool. */
    method WorkSection(ghost p: ThreadPool.Pool, ghost t: ThreadPool.Thread, ghost released: set<ThreadPool.Item>)
      returns (r: Worked)
      requires Valid() && Shows(p)
      modifies this
      ensures r == if old(nodes) != [] then Run(old(nodes)[0]) else if shutdown then Exit else Park
      ensures Valid() && nodes == if r.Run? then old(nodes)[1..] else old(nodes)
      ensures var q := ThreadPool.WorkStep(p, t, released);
              && Shows(q)
              && (r.Park? ==> t in q.w.parked)
              && (r.Exit? ==> t in q.w.exited)
              && (r.Run? ==>
                    && t in q.w.running && q.w.running[t] == r.item.item
                    && q.log.started == p.log.started + [r.item.item])
    {
      if size == 0 && !shutdown { return Park; }
      if shutdown && size == 0 { return Exit; }
      var x := head;
      head := x.next;
      if head == null { tail := null; }
      size := size - 1;
      nodes := nodes[1..];
      r := Run(x);
    }

    /** Marks the pool as shutting down; the caller then broadcasts to all waiters. */
    method ShutdownSection(ghost p: ThreadPool.Pool)
      requires Valid() && Shows(p)
      modifies this`shutdown
      ensures Valid() && nodes == old(nodes) && Shows(ThreadPool.DestroyStep(p))
    {
      shutdown := true;
    }

    /**
     The clean-up loop after the joins visits exactly the items still linked, in order: none, once all
     workers have exited.
     */
    method Leftover(ghost p: ThreadPool.Pool, hasCallback: ThreadPool.Item -> bool)
      returns (cleaned: seq<ThreadPool.Item>)
      requires Valid() && Shows(p) && ThreadPool.Inv(p, hasCallback)
      ensures cleaned == Contents()
      ensures p.w.exited == p.threads ==> cleaned == []
    {
      if p.w.exited == p.threads { ThreadPool.Drained(p, hasCallback); }
      hide ThreadPool.Inv;
      cleaned := [];
      var x := head;
      ghost var k := 0;
      while x != null
        invariant 0 <= k <= |nodes|
        invariant cleaned == Contents()[..k]
        invariant x == if k < |nodes| then nodes[k] else null
        decreases |nodes| - k
      {
        cleaned := cleaned + [x.item];
        x := x.next;
        k := k + 1;
      }
    }
  }
}
