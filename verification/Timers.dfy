/**
 The timers of kernel/timer.c on top of the pointer-linked heap.

 Callbacks are outside the model: a tick returns the timers it fires, in order, and the callbacks are
 taken to leave the heap alone.
 */
module Timers {
  import opened HeapOrder
  import opened TimerHeap

  class TimerQueue {
    const heap: Heap

    ghost predicate Valid()
      reads this, heap, heap.nodes
    {
      heap.Valid() && forall i :: 0 <= i < |heap.nodes| ==> heap.nodes[i].state == Scheduled
    }

    ghost predicate Ordered()
      reads this, heap, heap.nodes
    {
      HeapOrdered(heap.Contents())
    }

    /** timer_init */
    constructor ()
      ensures Valid() && Ordered() && heap.nodes == [] && fresh(heap)
    {
      heap := new Heap();
    }

    /** The timer is in no tree: it can be registered, and cancelling it changes nothing. */
    ghost predicate Detached(entry: Timer)
      reads heap, entry
    {
      entry !in heap.nodes && entry.parent == null && entry.left == null && entry.right == null
    }

    /** register_timer */
    method RegisterTimer(entry: Timer)
      requires Valid() && Detached(entry)
      modifies heap, heap.nodes`parent, heap.nodes`left, heap.nodes`right,
               entry`parent, entry`left, entry`right, entry`state
      ensures Valid() && SameNodes(heap.nodes, old(heap.nodes) + [entry])
      ensures heap.Contents() == Attach(old(heap.Contents()), Entry(entry, entry.timeToExpire))
      ensures old(Ordered()) ==> Ordered()
    {
      hide Wired, HeapOrdered, Entries;
      if Ordered() {
        AttachKeepsOrder(heap.Contents(), Entry(entry, entry.timeToExpire));
      }
      entry.state := Scheduled;
      heap.AttachHeapNode(entry);
      assert forall i :: 0 <= i < |heap.nodes| ==> heap.nodes[i] in old(heap.nodes) + [entry];
    }

    /** cancel_timer: also for an entry that fired already */
    method CancelTimer(entry: Timer, ghost i: nat)
      requires Valid()
      requires if entry in heap.nodes then i < |heap.nodes| && heap.nodes[i] == entry else Detached(entry)
      modifies heap, heap.nodes`parent, heap.nodes`left, heap.nodes`right, entry`state
      ensures Valid() && Detached(entry) && entry.state == Idle
      ensures heap.Contents() ==
                if entry in old(heap.nodes) then Delete(old(heap.Contents()), i) else old(heap.Contents())
      ensures old(Ordered()) && entry in old(heap.nodes) ==>
                (Ordered() <==>
                  i == 0 || old(heap.nodes[Parent(i)].timeToExpire <= heap.nodes[|heap.nodes| - 1].timeToExpire))
    {
      hide Wired, HeapOrdered, Delete;
      if Ordered() && entry in heap.nodes {
        DeleteKeepsOrderIff(heap.Contents(), i);
      }
      heap.DeleteHeapNode(entry, i);
      assert forall k :: 0 <= k < |heap.nodes| ==> heap.nodes[k] in old(heap.nodes);
      entry.state := Idle;
    }

    /** schedule_timer */
    method ScheduleTimer(jiffies: nat) returns (fired: seq<Entry<Timer>>)
      requires Valid()
      modifies heap, heap.nodes`parent, heap.nodes`left, heap.nodes`right
      ensures Valid()
      ensures heap.Contents() == FireDue(old(heap.Contents()), jiffies).1
      ensures fired == FireDue(old(heap.Contents()), jiffies).0
      ensures forall i :: 0 <= i < |fired| ==> Detached(fired[i].item)
      ensures old(Ordered()) ==> Ordered()
    {
      if Ordered() {
        FireDueBounds(heap.Contents(), jiffies);
      }
      fired := FireAll(jiffies);
    }

    method FireAll(jiffies: nat) returns (fired: seq<Entry<Timer>>)
      requires Valid()
      modifies heap, heap.nodes`parent, heap.nodes`left, heap.nodes`right
      ensures Valid()
      ensures heap.Contents() == FireDue(old(heap.Contents()), jiffies).1
      ensures fired == FireDue(old(heap.Contents()), jiffies).0
      ensures forall i :: 0 <= i < |fired| ==> Detached(fired[i].item)
    {
      hide Wired, FireDue, Entries;
      fired := [];
      while heap.root != null
        invariant Valid() && forall n :: n in heap.nodes ==> n in old(heap.nodes)
        invariant fired + FireDue(heap.Contents(), jiffies).0 == FireDue(old(heap.Contents()), jiffies).0
        invariant FireDue(heap.Contents(), jiffies).1 == FireDue(old(heap.Contents()), jiffies).1
        invariant forall i :: 0 <= i < |fired| ==> Detached(fired[i].item)
        decreases |heap.nodes|
      {
        if heap.root.timeToExpire > jiffies {
          break;
        }
        assert forall i :: 0 <= i < |heap.nodes| ==> heap.nodes[i] in old(heap.nodes);
        var timer := FireOne(jiffies);
        fired := fired + [Entry(timer, timer.timeToExpire)];
      }
      NoneDue(heap.Contents(), jiffies);
    }

    method FireOne(jiffies: nat) returns (timer: Timer)
      requires Valid() && heap.nodes != [] && heap.nodes[0].timeToExpire <= jiffies
      modifies heap, heap.nodes`parent, heap.nodes`left, heap.nodes`right
      ensures Valid() && |heap.nodes| < |old(heap.nodes)| && Detached(timer)
      ensures FireDue(old(heap.Contents()), jiffies).0 ==
              [Entry(timer, timer.timeToExpire)] + FireDue(heap.Contents(), jiffies).0
      ensures FireDue(old(heap.Contents()), jiffies).1 == FireDue(heap.Contents(), jiffies).1
      ensures forall n :: n in heap.nodes ==> n in old(heap.nodes)
    {
      timer := heap.DetachHeapNode();
      assert forall i :: 0 <= i < |heap.nodes| ==> heap.nodes[i] in old(heap.nodes);
    }
  }
}
