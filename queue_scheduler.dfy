/** The FIFO scheduling policy (src/queue_scheduler.c): a run queue of
    handles over the two-stack queue and a function store. The front of the
    queue is the running coroutine. */
module QueueScheduler {
  import opened Wrappers
  import opened Storage

  class QueueScheduler {
    var functions: FunctionStore
    var eventQueue: Queue

    ghost predicate Valid()
      reads this, functions, eventQueue, eventQueue.push, eventQueue.pop
    {
      functions.Valid() && eventQueue.Valid()
    }

    /** The handles in the run queue, front first. */
    ghost function Queued(): seq<Handle>
      reads this, eventQueue, eventQueue.push, eventQueue.pop
      requires eventQueue.Valid()
    {
      eventQueue.Contents()
    }

    /** The statically zero-initialised scheduler state. */
    constructor ()
      ensures Valid() && Queued() == [] && functions.count == 0 && functions.nextFree == 0
    {
      functions := new FunctionStore();
      eventQueue := new Queue();
    }

    /** init_queue_scheduler: resets both the store and the queue to empty. */
    method InitQueueScheduler()
      modifies this
      ensures Valid() && fresh(functions) && fresh(eventQueue)
      ensures Queued() == [] && functions.count == 0 && functions.cap == 0
      ensures functions.nextFree == 0
    {
      functions := new FunctionStore();
      eventQueue := new Queue();
    }

    /** current: the front of the run queue; nothing changes. */
    method Current() returns (h: Handle)
      requires Valid() && Queued() != []
      ensures h == Queued()[0]
    {
      h := eventQueue.Peek();
    }

    /** next_coroutine: moves the front handle to the back. */
    method NextCoroutine()
      requires Valid() && Queued() != []
      modifies eventQueue.push, eventQueue.pop
      ensures Valid()
      ensures Queued() == old(Queued())[1..] + [old(Queued())[0]]
      ensures multiset(Queued()) == multiset(old(Queued()))
    {
      var h := eventQueue.Dequeue();
      eventQueue.Enqueue(h);
      ghost var q := old(Queued());
      assert q == [q[0]] + q[1..];
    }

    /** add_coroutine: allocates a handle for `elem` and places it at the
        back of the run queue. */
    method AddCoroutine(elem: FunctionObject) returns (h: Handle)
      requires Valid()
      modifies functions, eventQueue.push
      ensures Valid()
      ensures Queued() == old(Queued()) + [h]
      ensures 1 <= h <= functions.count && functions.elems[h - 1] == elem.(thisFn := h)
      ensures old(functions.nextFree) == 0 ==>
        && h == old(functions.count) + 1 && functions.count == old(functions.count) + 1
        && functions.cap == (if old(functions.count) >= old(functions.cap) then Grown(old(functions.cap)) else old(functions.cap))
        && functions.elems[..old(functions.count)] == old(functions.elems)[..old(functions.count)]
        && functions.nextFree == 0 && functions.freeList == old(functions.freeList)
      ensures old(functions.nextFree) != 0 ==>
        && h == old(functions.nextFree) && functions.count == old(functions.count)
        && functions.cap == old(functions.cap)
        && old(functions.elems)[h - 1].state == Dead
        && functions.nextFree == old(functions.elems)[h - 1].thisFn
        && functions.freeList == old(functions.freeList)[1..]
        && functions.elems == old(functions.elems)[h - 1 := elem.(thisFn := h)]
    {
      h := functions.NewHandle(elem);
      eventQueue.Enqueue(h);
    }

    /** free_coroutine: releases the slot of `h`; the run queue is left
        alone. */
    method FreeCoroutine(h: Handle)
      requires Valid()
      requires h != 0 && h != 1 && h <= functions.count
      requires functions.elems[h - 1].state != Dead
      modifies functions
      ensures Valid()
      ensures Queued() == old(Queued())
      ensures functions.nextFree == h && functions.freeList == [h] + old(functions.freeList)
      ensures functions.count == old(functions.count) && functions.cap == old(functions.cap)
      ensures functions.elems == old(functions.elems)[h - 1 := old(functions.elems)[h - 1].(
        state := Dead, thisFn := old(functions.nextFree), stackTop := old(functions.elems)[h - 1].stack + STACK_SIZE)]
    {
      functions.FreeHandle(h);
    }

    /** terminate_coroutine: removes and returns the front handle without
        freeing its slot. */
    method TerminateCoroutine() returns (h: Handle)
      requires Valid() && Queued() != []
      modifies eventQueue.push, eventQueue.pop
      ensures Valid()
      ensures h == old(Queued())[0] && Queued() == old(Queued())[1..]
      ensures functions.elems == old(functions.elems)
    {
      h := eventQueue.Dequeue();
    }
  }
}
