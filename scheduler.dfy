/** The task pool and the scheduler front end of src/scheduler.c: a growable
    array of task records whose freed records form a LIFO free-list threaded
    through their `handle` field, and the runtime that pairs the pool with
    the graph scheduling policy (the vtable of use_graph_scheduler). */
module Scheduler {
  import opened Wrappers
  import Storage
  import opened GraphScheduler

  datatype State = Init | Running | Ready | Free

  /** A task record (src/scheduler.c:33-39). Stack addresses, the entry
      function and its data are opaque values; a FREE record's `handle`
      holds the next index of the free-list. */
  datatype Task = Task(stackBase: int, stackPtr: int, fn: int, data: int,
                       state: State, orphaned: bool, handle: Handle)

  /** Entry `k` of the free-list is a FREE record among the first `len`
      whose `handle` holds the next entry. */
  ghost predicate TaskLink(tasks: seq<Task>, len: int, list: seq<Handle>, k: int)
    requires 0 <= k < |list|
  {
    && 1 <= list[k] <= len <= |tasks|
    && tasks[list[k] - 1].state == Free
    && tasks[list[k] - 1].handle == Storage.Link(list, k)
  }

  ghost predicate TaskChain(tasks: seq<Task>, len: int, list: seq<Handle>)
  {
    forall k :: 0 <= k < |list| ==> TaskLink(tasks, len, list, k)
  }

  lemma TaskChainAt(tasks: seq<Task>, len: int, list: seq<Handle>, k: int)
    requires TaskChain(tasks, len, list) && 0 <= k < |list|
    ensures 1 <= list[k] <= len <= |tasks| && tasks[list[k] - 1].state == Free
    ensures tasks[list[k] - 1].handle == Storage.Link(list, k)
  {
    assert TaskLink(tasks, len, list, k);
  }

  /** A record in use holds its own handle and a mapped stack. */
  ghost predicate InUse(tasks: seq<Task>, len: int)
  {
    && (forall i :: 0 <= i < len <= |tasks| && tasks[i].state != Free ==> tasks[i].handle == i + 1)
    && (forall i :: 0 <= i < len <= |tasks| ==> tasks[i].stackBase > 0 && tasks[i].stackPtr > 0)
  }

  /** The pool invariant on the pool's fields: `tasks` is the buffer of
      length `cap`, the first `len` records are in use or free, and the
      free-list runs through FREE records from `freeTask`. */
  ghost predicate PoolOk(tasks: seq<Task>, len: int, cap: int, freeTask: Handle, freeList: seq<Handle>)
  {
    && 0 <= len <= cap && |tasks| == cap
    && freeTask == (if freeList == [] then 0 else freeList[0])
    && TaskChain(tasks, len, freeList)
    && Distinct(freeList)
    && InUse(tasks, len)
  }

  /** Handle `h` names a record in use. */
  ghost predicate InUseAt(tasks: seq<Task>, len: int, h: Handle)
  {
    1 <= h <= len && h <= |tasks| && tasks[h - 1].state != Free
  }

  /** The handles of the records in use. */
  ghost function LiveOf(tasks: seq<Task>, len: int): set<Handle>
  {
    set h: Handle | h <= len && InUseAt(tasks, len, h)
  }

  lemma LiveUpdate(tasks: seq<Task>, len: int, i: int, t: Task)
    requires 0 <= i < len <= |tasks|
    ensures t.state != Free ==> LiveOf(tasks[i := t], len) == LiveOf(tasks, len) + {i + 1}
    ensures t.state == Free ==> LiveOf(tasks[i := t], len) == LiveOf(tasks, len) - {i + 1}
  {
  }

  lemma LiveGrow(tasks: seq<Task>, len: int, tasks': seq<Task>, t: Task)
    requires 0 <= len <= |tasks| && len < |tasks'| && tasks'[..len] == tasks[..len] && t.state != Free
    ensures LiveOf(tasks'[len := t], len + 1) == LiveOf(tasks, len) + {len + 1}
  {
    forall i | 0 <= i < len
      ensures tasks'[len := t][i] == tasks[i]
    {
      assert tasks'[..len][i] == tasks[..len][i];
    }
  }

  /** `free_task == 0` marks exactly the empty free-list. */
  lemma EmptyPoolList(tasks: seq<Task>, len: int, cap: int, freeTask: Handle, freeList: seq<Handle>)
    requires PoolOk(tasks, len, cap, freeTask, freeList)
    ensures freeTask == 0 <==> freeList == []
  {
    if freeList != [] {
      TaskChainAt(tasks, len, freeList, 0);
    }
  }

  /** Appending a record in use at `len` keeps the invariant of a pool
      whose free-list is empty. */
  lemma AppendKeepsPool(tasks: seq<Task>, len: int, cap: int, tasks': seq<Task>, cap': int, t: Task)
    requires PoolOk(tasks, len, cap, 0, [])
    requires len < cap' && |tasks'| == cap' && tasks'[..len] == tasks[..len]
    requires t.state != Free && t.handle == len + 1 && t.stackBase > 0 && t.stackPtr > 0
    ensures PoolOk(tasks'[len := t], len + 1, cap', 0, [])
  {
    var e := tasks'[len := t];
    forall i | 0 <= i < len + 1
      ensures e[i].stackBase > 0 && e[i].stackPtr > 0 && (e[i].state != Free ==> e[i].handle == i + 1)
    {
      if i < len {
        assert e[i] == tasks'[..len][i] == tasks[..len][i] == tasks[i];
      }
    }
  }

  /** Reusing the head of the free-list: the head record is FREE, and
      writing a record in use for it while the head moves to the index the
      record stored keeps the invariant. */
  lemma ReuseKeepsPool(tasks: seq<Task>, len: int, cap: int, freeTask: Handle, freeList: seq<Handle>, t: Task)
    requires PoolOk(tasks, len, cap, freeTask, freeList) && freeTask != 0
    requires t.state != Free && t.handle == freeTask && t.stackBase > 0 && t.stackPtr > 0
    ensures 1 <= freeTask <= len && tasks[freeTask - 1].state == Free
    ensures PoolOk(tasks[freeTask - 1 := t], len, cap, tasks[freeTask - 1].handle, freeList[1..])
  {
    TaskChainAt(tasks, len, freeList, 0);
    var list := freeList[1..];
    var e := tasks[freeTask - 1 := t];
    if list != [] {
      TaskChainAt(tasks, len, freeList, 1);
      assert Storage.Link(freeList, 1) == Storage.Link(list, 0);
      assert list[0] == freeList[1] != freeList[0];
    }
    forall k | 0 <= k < |list|
      ensures TaskLink(e, len, list, k)
    {
      TaskChainAt(tasks, len, freeList, k + 1);
      assert list[k] == freeList[k + 1] != freeList[0];
      assert Storage.Link(freeList, k + 1) == Storage.Link(list, k);
    }
    Storage.DistinctTail(freeList);
  }

  /** Freeing a record in use: marking it FREE, linking it to the old head
      and making it the head keeps the invariant. */
  lemma ReleaseKeepsPool(tasks: seq<Task>, len: int, cap: int, freeTask: Handle, freeList: seq<Handle>,
                         h: Handle, dead: Task)
    requires PoolOk(tasks, len, cap, freeTask, freeList)
    requires 1 <= h <= len && tasks[h - 1].state != Free
    requires dead.state == Free && dead.handle == freeTask && dead.stackBase > 0 && dead.stackPtr > 0
    ensures PoolOk(tasks[h - 1 := dead], len, cap, h, [h] + freeList)
  {
    var list, e := [h] + freeList, tasks[h - 1 := dead];
    forall k | 0 <= k < |freeList|
      ensures freeList[k] != h
    {
      TaskChainAt(tasks, len, freeList, k);
    }
    forall k | 0 <= k < |list|
      ensures TaskLink(e, len, list, k)
    {
      if k > 0 {
        TaskChainAt(tasks, len, freeList, k - 1);
        assert Storage.Link(list, k) == Storage.Link(freeList, k - 1);
        var x := freeList[k - 1];
        assert list[k] == x && x != h;
      }
    }
    Storage.DistinctCons(h, freeList);
  }

  /** Rewriting a record without changing whether it is FREE or what its
      `handle` holds, and keeping its stack mapped, keeps the invariant. */
  lemma RewriteKeepsPool(tasks: seq<Task>, len: int, cap: int, freeTask: Handle, freeList: seq<Handle>,
                         i: int, t: Task)
    requires PoolOk(tasks, len, cap, freeTask, freeList) && 0 <= i < len
    requires (t.state == Free <==> tasks[i].state == Free) && t.handle == tasks[i].handle
    requires t.stackBase > 0 && t.stackPtr > 0
    ensures PoolOk(tasks[i := t], len, cap, freeTask, freeList)
    ensures LiveOf(tasks[i := t], len) == LiveOf(tasks, len)
  {
    var e := tasks[i := t];
    forall k | 0 <= k < |freeList|
      ensures TaskLink(e, len, freeList, k)
    {
      TaskChainAt(tasks, len, freeList, k);
    }
  }

  class TaskPool {
    /** The allocated buffer; its length is always `cap`. */
    var tasks: seq<Task>
    var len: int
    var cap: int
    var freeTask: Handle
    /** The records on the free-list, head first. */
    ghost var freeList: seq<Handle>

    ghost predicate Valid()
      reads this
    {
      PoolOk(tasks, len, cap, freeTask, freeList)
    }

    /** The handles of the tasks in use. */
    ghost function Live(): set<Handle>
      reads this
    {
      LiveOf(tasks, len)
    }

    /** The zero-initialised static pool. */
    constructor ()
      ensures Valid() && len == 0 && cap == 0 && freeTask == 0 && Live() == {}
    {
      tasks, len, cap, freeTask := [], 0, 0, 0;
      freeList := [];
    }

    /** start_new_task up to the registration, with `stackBase` the mapping
        `mmap` returned. With an empty free-list a record is appended
        (the buffer first grows to `cap * 2 + 10` when full) and its handle is
        `len + 1`; otherwise the head of the free-list is reused, which the
        invariant shows is FREE and in range (the source's assertions), and
        only its state, handle, function, data and stack pointer are
        rewritten. */
    method NewTask(fn: int, data: int, stackBase: int) returns (h: Handle)
      requires Valid() && stackBase > 0
      modifies this
      ensures Valid() && 1 <= h <= len
      ensures old(freeTask) == 0 ==>
        && h == old(len) + 1 && len == old(len) + 1 && freeList == old(freeList)
        && cap == (if old(len) == old(cap) then Storage.Grown(old(cap)) else old(cap))
        && tasks[..old(len)] == old(tasks)[..old(len)]
        && tasks[h - 1] == Task(stackBase, stackBase + STACK_SIZE, fn, data, Init, false, h)
      ensures old(freeTask) != 0 ==>
        && h == old(freeTask) && len == old(len) && cap == old(cap)
        && old(tasks)[h - 1].state == Free
        && freeTask == old(tasks)[h - 1].handle && freeList == old(freeList)[1..]
        && tasks == old(tasks)[h - 1 := old(tasks)[h - 1].(state := Init, handle := h, fn := fn, data := data,
                                                           stackPtr := old(tasks)[h - 1].stackBase + STACK_SIZE)]
      ensures h !in old(Live()) && Live() == old(Live()) + {h}
    {
      EmptyPoolList(tasks, len, cap, freeTask, freeList);
      if freeTask == 0 {
        h := Append(fn, data, stackBase);
      } else {
        h := Reuse(fn, data);
      }
    }

    /** The branch of start_new_task taken with an empty free-list. */
    method Append(fn: int, data: int, stackBase: int) returns (h: Handle)
      requires Valid() && freeTask == 0 && freeList == [] && stackBase > 0
      modifies this
      ensures Valid()
      ensures h == old(len) + 1 && len == old(len) + 1 && freeTask == 0 && freeList == []
      ensures cap == (if old(len) == old(cap) then Storage.Grown(old(cap)) else old(cap))
      ensures tasks[..old(len)] == old(tasks)[..old(len)]
      ensures tasks[h - 1] == Task(stackBase, stackBase + STACK_SIZE, fn, data, Init, false, h)
      ensures h !in old(Live()) && Live() == old(Live()) + {h}
    {
      var t := Task(stackBase, stackBase + STACK_SIZE, fn, data, Init, false, len + 1);
      var buf, newCap := tasks, cap;
      if len == cap {
        newCap := Storage.Grown(cap);
        buf := tasks + seq(newCap - cap, _ => t);
      }
      assert buf[..len] == tasks[..len];
      AppendKeepsPool(tasks, len, cap, buf, newCap, t);
      LiveGrow(tasks, len, buf, t);
      tasks, cap := buf[len := t], newCap;
      assert tasks[..len] == buf[..len];
      len := len + 1;
      h := len;
    }

    /** The branch of start_new_task that reuses the head of the
        free-list. */
    method Reuse(fn: int, data: int) returns (h: Handle)
      requires Valid() && freeTask != 0
      modifies this
      ensures Valid()
      ensures h == old(freeTask) && len == old(len) && cap == old(cap) && 1 <= h <= len
      ensures old(tasks)[h - 1].state == Free
      ensures freeTask == old(tasks)[h - 1].handle && freeList == old(freeList)[1..]
      ensures tasks == old(tasks)[h - 1 := old(tasks)[h - 1].(state := Init, handle := h, fn := fn, data := data,
                                                              stackPtr := old(tasks)[h - 1].stackBase + STACK_SIZE)]
      ensures h !in old(Live()) && Live() == old(Live()) + {h}
    {
      h := freeTask;
      TaskChainAt(tasks, len, freeList, 0);
      var t := tasks[h - 1];
      var next := t.handle;
      var g := t.(state := Init, handle := h, fn := fn, data := data, stackPtr := t.stackBase + STACK_SIZE);
      ReuseKeepsPool(tasks, len, cap, freeTask, freeList, g);
      LiveUpdate(tasks, len, h - 1, g);
      tasks := tasks[h - 1 := g];
      freeTask := next;
      freeList := freeList[1..];
    }

    /** get_task: the record of handle `h`, which must be in range. */
    method GetTask(h: Handle) returns (t: Task)
      requires 1 <= h <= len <= |tasks|
      ensures t == tasks[h - 1]
    {
      t := tasks[h - 1];
    }

    /** The pool half of free_task: the record becomes FREE, stores the old
        head of the free-list and becomes the head. */
    method Release(h: Handle)
      requires Valid() && 1 <= h <= len && tasks[h - 1].state != Free
      modifies this
      ensures Valid()
      ensures freeTask == h && freeList == [h] + old(freeList) && len == old(len) && cap == old(cap)
      ensures tasks == old(tasks)[h - 1 := old(tasks)[h - 1].(state := Free, handle := old(freeTask))]
      ensures Live() == old(Live()) - {h}
    {
      var t := tasks[h - 1].(state := Free, handle := freeTask);
      ReleaseKeepsPool(tasks, len, cap, freeTask, freeList, h, t);
      LiveUpdate(tasks, len, h - 1, t);
      tasks := tasks[h - 1 := t];
      freeList := [h] + freeList;
      freeTask := h;
    }

    /** Rewrites record `h` in place without changing whether it is FREE,
        what its `handle` holds or whether its stack is mapped. */
    method Rewrite(h: Handle, t: Task)
      requires Valid() && 1 <= h <= len
      requires (t.state == Free <==> tasks[h - 1].state == Free) && t.handle == tasks[h - 1].handle
      requires t.stackBase > 0 && t.stackPtr > 0
      modifies this
      ensures Valid() && tasks == old(tasks)[h - 1 := t] && Live() == old(Live())
      ensures len == old(len) && cap == old(cap) && freeTask == old(freeTask) && freeList == old(freeList)
    {
      RewriteKeepsPool(tasks, len, cap, freeTask, freeList, h - 1, t);
      tasks := tasks[h - 1 := t];
    }
  }

  /** Freeing a task and then starting one hands back the same handle: the
      free-list is LIFO. */
  method ReleaseThenNewReuses(pool: TaskPool, h: Handle, fn: int, data: int, stackBase: int) returns (h': Handle)
    requires pool.Valid() && 1 <= h <= pool.len && pool.tasks[h - 1].state != Free && stackBase > 0
    modifies pool
    ensures pool.Valid()
    ensures h' == h && pool.freeTask == old(pool.freeTask) && pool.len == old(pool.len)
    ensures pool.tasks[h - 1].orphaned == old(pool.tasks[h - 1].orphaned)
  {
    pool.Release(h);
    h' := pool.NewTask(fn, data, stackBase);
  }

  /** The static scheduler and pool of src/scheduler.c with the graph policy
      installed: the handles the graph has registered are exactly the tasks
      in use. */
  class Runtime {
    const pool: TaskPool
    const graph: Graph

    ghost predicate Valid()
      reads this, pool, graph, graph.queue, graph.handleToNode, graph.nodes
    {
      && pool.Valid() && graph.Valid()
      && graph.Registered() == pool.Live()
      && pool.len <= INT_MAX
    }

    /** async_init with use_graph_scheduler, over the zeroed statics. */
    constructor ()
      ensures Valid() && fresh(pool) && fresh(graph) && fresh(graph.queue) && fresh(graph.handleToNode)
      ensures pool.len == 0 && pool.freeTask == 0 && graph.queue.Items() == [] && graph.Registered() == {}
      ensures graph.nodes == {}
    {
      pool := new TaskPool();
      graph := new Graph();
    }

    /** start_new_task: a record is taken from the pool and its handle is
        registered with the scheduler, which queues it at the back; a handle
        is registered only while its record is in use, so never twice. */
    method StartNewTask(fn: int, data: int, stackBase: int) returns (h: Handle)
      requires Valid() && stackBase > 0
      requires pool.freeTask == 0 ==> pool.len < INT_MAX
      modifies pool, graph, graph.queue, graph.handleToNode, graph.nodes`h, graph.nodes`parent, graph.nodes`inQueue
      ensures Valid()
      ensures h == if old(pool.freeTask) == 0 then old(pool.len) + 1 else old(pool.freeTask)
      ensures h !in old(graph.Registered()) && graph.Registered() == old(graph.Registered()) + {h}
      ensures graph.Names(h) && graph.NodeOf(h).h == h && graph.NodeOf(h).parent == null
      ensures graph.queue.Items() == old(graph.queue.Items()) + [graph.NodeOf(h)]
      ensures forall g :: g in old(graph.Registered()) ==> graph.Names(g) && graph.NodeOf(g) == old(graph.NodeOf(g))
      ensures 1 <= h <= pool.len && pool.tasks[h - 1].state == Init
      ensures pool.tasks[h - 1].fn == fn && pool.tasks[h - 1].data == data
      ensures old(pool.freeTask) == 0 ==> pool.len == old(pool.len) + 1 && pool.freeTask == 0
      ensures old(pool.freeTask) == 0 ==> pool.tasks[h - 1] == Task(stackBase, stackBase + STACK_SIZE, fn, data, Init, false, h)
      ensures old(pool.freeTask) == 0 ==>
        pool.freeList == old(pool.freeList) && pool.cap == (if old(pool.len) == old(pool.cap) then Storage.Grown(old(pool.cap)) else old(pool.cap))
      ensures old(pool.freeTask) != 0 ==> pool.len == old(pool.len)
      ensures old(pool.freeTask) != 0 ==>
        && pool.freeTask == old(pool.tasks)[h - 1].handle && pool.freeList == old(pool.freeList)[1..]
        && pool.cap == old(pool.cap)
        && pool.tasks[h - 1] == old(pool.tasks)[h - 1].(state := Init, handle := h, fn := fn, data := data,
                                                         stackPtr := old(pool.tasks)[h - 1].stackBase + STACK_SIZE)
      ensures forall i :: 0 <= i < old(pool.len) && i != h - 1 ==> pool.tasks[i] == old(pool.tasks)[i]
    {
      h := pool.NewTask(fn, data, stackBase);
      graph.Register(h);
    }

    /** poll_state: asks the scheduler for the current task (which must
        exist) and reads the state of `h`; nothing changes. */
    method PollState(h: Handle) returns (s: State)
      requires Valid() && graph.queue.Items() != [] && 1 <= h <= pool.len
      ensures s == pool.tasks[h - 1].state
    {
      var cur := graph.Current();
      var t := pool.GetTask(h);
      s := t.state;
    }

    /** The running task (the front of the queue) is a task in use. */
    lemma FrontInUse()
      requires Valid() && graph.queue.Items() != []
      ensures graph.Names(graph.Front().h) && graph.NodeOf(graph.Front().h) == graph.Front()
      ensures 1 <= graph.Front().h <= pool.len && pool.tasks[graph.Front().h - 1].state != Free
    {
      var f := graph.Front();
      assert f in graph.nodes && f.h != 0;
      assert graph.Names(f.h) && graph.NodeOf(f.h) == f;
      assert f.h in pool.Live();
    }

    /** The handle of the running task. */
    ghost function CurrentTask(): (h: Handle)
      reads this, pool, graph, graph.queue, graph.handleToNode, graph.nodes
      requires Valid() && graph.queue.Items() != []
      ensures 1 <= h <= pool.len && pool.tasks[h - 1].state != Free
    {
      FrontInUse();
      graph.Front().h
    }

    /** The task graph_finish_task hands over to: the finished task's parent
        when it waits outside the queue, otherwise the second queued task,
        or 0 when there is none. */
    ghost function NextTask(): Handle
      reads this, pool, graph, graph.queue, graph.handleToNode, graph.nodes
      requires Valid() && graph.queue.Items() != []
    {
      if graph.Requeues() then graph.Front().parent.h
      else if |graph.queue.Items()| >= 2 then graph.queue.Items()[1].h
      else 0
    }

    /** finish_current_task: the scheduler's finish step. The front task
        leaves the queue and the next task comes to the front, or `next` is
        0 when no task is left; the registrations and the pool stay as they
        are. */
    method FinishCurrent() returns (current: Handle, next: Handle)
      requires Valid() && graph.queue.Items() != []
      requires graph.Requeues() ==> graph.Front().parent.h != 0
      modifies graph.queue, graph.nodes`inQueue
      ensures Valid()
      ensures current == old(CurrentTask()) && graph.Names(current) && graph.NodeOf(current) == old(graph.Front())
      ensures 1 <= current <= pool.len && pool.tasks[current - 1].state != Free
      ensures next == old(NextTask())
      ensures graph.queue.Items() != [] ==> next == graph.Front().h && next != 0
      ensures graph.queue.Items() == [] <==> next == 0
      ensures graph.NodeOf(current).inQueue ==> next == current
      ensures graph.Registered() == old(graph.Registered())
      ensures old(graph.Requeues()) ==> graph.queue.Items() == [old(graph.Front().parent)] + old(graph.queue.Items())[1..]
      ensures !old(graph.Requeues()) ==> graph.queue.Items() == old(graph.queue.Items())[1..]
      ensures graph.NodeOf(current).inQueue <==> old(graph.Requeues()) && old(graph.Front().parent) == old(graph.Front())
    {
      FrontInUse();
      current, next := graph.Finish();
    }

    /** free_task: the scheduler drops `h` (its entry must exist and its node
        must not be queued), then the record joins the free-list. */
    method FreeTask(h: Handle)
      requires Valid() && h in graph.Registered() && !graph.NodeOf(h).inQueue
      modifies pool, graph`entryOf, graph.handleToNode, graph.nodes`h, graph.nodes`inQueue
      ensures Valid()
      ensures graph.Registered() == old(graph.Registered()) - {h}
      ensures graph.queue.Items() == old(graph.queue.Items())
      ensures forall g :: g in graph.Registered() ==> graph.Names(g) && graph.NodeOf(g) == old(graph.NodeOf(g))
      ensures pool.freeTask == h && pool.len == old(pool.len)
      ensures pool.tasks == old(pool.tasks)[h - 1 := old(pool.tasks)[h - 1].(state := Free, handle := old(pool.freeTask))]
    {
      graph.FreeTask(h);
      pool.Release(h);
    }
  }
}
