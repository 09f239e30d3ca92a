/** The surface API of src/async.c over the runtime: orphaning, returning
    from a task, skipping to the next task, and the selection made by one
    scan of await, await_any and await_all. */
module Async {
  import opened Wrappers
  import opened GraphScheduler
  import opened Scheduler
  import opened Switch

  /** Task `h` is in range and READY. */
  ghost predicate IsReady(pool: TaskPool, h: Handle)
    reads pool
  {
    1 <= h <= pool.len <= |pool.tasks| && pool.tasks[h - 1].state == Ready
  }

  /** async_orphan: only the task's `orphaned` flag changes. */
  method AsyncOrphan(rt: Runtime, h: Handle)
    requires rt.Valid() && 1 <= h <= rt.pool.len
    modifies rt.pool
    ensures rt.Valid()
    ensures rt.pool.tasks == old(rt.pool.tasks)[h - 1 := old(rt.pool.tasks)[h - 1].(orphaned := true)]
    ensures rt.pool.len == old(rt.pool.len) && rt.pool.freeTask == old(rt.pool.freeTask)
  {
    var t := rt.pool.GetTask(h);
    rt.pool.Rewrite(h, t.(orphaned := true));
  }

  /** run_async_main up to the switch into the main task: on a fresh
      runtime the first spawn gets handle 1 (the source's assertion), and
      the main task is entered by calling its function with its argument. */
  method RunAsyncMain(fn: int, arg: int, stackBase: int) returns (rt: Runtime, h: Handle, entry: Entry)
    requires stackBase > 0
    ensures rt.Valid() && h == 1 && rt.graph.Registered() == {1}
    ensures rt.graph.Names(1) && rt.graph.queue.Items() == [rt.graph.NodeOf(1)]
    ensures rt.pool.len == 1 && rt.pool.freeTask == 0 && rt.pool.tasks[0].state == Running
    ensures entry == Call(fn, arg, stackBase + STACK_SIZE)
  {
    rt, h := SpawnMain(fn, arg, stackBase);
    entry := AsyncSwitch(rt, 0, h, 0);
  }

  /** async_init followed by async_call of the main function: the first
      spawn on a fresh runtime takes handle 1 and is the only queued task. */
  method SpawnMain(fn: int, arg: int, stackBase: int) returns (rt: Runtime, h: Handle)
    requires stackBase > 0
    ensures fresh(rt.pool) && fresh(rt.graph)
    ensures rt.Valid() && h == 1 && rt.graph.Registered() == {1}
    ensures rt.graph.Names(1) && rt.graph.queue.Items() == [rt.graph.NodeOf(1)]
    ensures rt.pool.len == 1 && rt.pool.freeTask == 0
    ensures rt.pool.tasks[0] == Task(stackBase, stackBase + STACK_SIZE, fn, arg, Init, false, 1)
  {
    rt := new Runtime();
    assert rt.pool.freeTask == 0 && rt.pool.len == 0 && rt.graph.queue.Items() == [];
    h := rt.StartNewTask(fn, arg, stackBase);
    assert h == 1 && rt.graph.Registered() == {} + {1};
    assert rt.graph.queue.Items() == [] + [rt.graph.NodeOf(1)];
    assert rt.pool.tasks[0] == rt.pool.tasks[h - 1];
  }

  /** What async_return leads to: the process exits with the main task's
      value cast to a C `int`, or the next task is switched to. */
  datatype Outcome = Exit(code: int) | Continue(next: Handle, entry: Entry)

  /** The records after task `h` returns `data`: it is READY with that data,
      and an orphaned task is freed at once, its record heading the
      free-list in front of `freeTask`. */
  ghost function Returned(tasks: seq<Task>, h: Handle, data: int, freeTask: Handle): seq<Task>
    requires 1 <= h <= |tasks|
  {
    var t := tasks[h - 1].(data := data, state := Ready);
    tasks[h - 1 := if t.orphaned then t.(state := Free, handle := freeTask) else t]
  }

  /** The head of the free-list after task `h` returns: `h` itself when it
      was orphaned and is freed, the old head `freeTask` otherwise. */
  ghost function FreeHead(tasks: seq<Task>, h: Handle, freeTask: Handle): Handle
    requires 1 <= h <= |tasks|
  {
    if tasks[h - 1].orphaned then h else freeTask
  }

  /** The handles task `h` frees when it returns: itself when orphaned. */
  ghost function Freed(tasks: seq<Task>, h: Handle): set<Handle>
    requires 1 <= h <= |tasks|
  {
    if tasks[h - 1].orphaned then {h} else {}
  }

  /** async_return: the scheduler finishes the running task. The main task
      (handle 1) ends the process with its value as exit code. Any other
      task becomes READY holding `data`, is freed at once when orphaned, and
      the next task is switched to without saving anything. The source
      asserts that a next task exists and that it is neither the finished
      one, FREE nor READY; the main task needs no next task, the existence
      check being made after the test for handle 1 (as written it comes
      first, see FinishLastAsWritten). */
  method AsyncReturn(rt: Runtime, data: int) returns (out: Outcome)
    requires rt.Valid() && rt.graph.queue.Items() != []
    requires rt.graph.Requeues() ==> rt.graph.Front().parent.h != 0
    requires rt.CurrentTask() != 1 ==>
      rt.NextTask() != 0 && rt.NextTask() != rt.CurrentTask() && Runnable(rt.pool, rt.NextTask())
    modifies rt.pool, rt.graph`entryOf, rt.graph.queue, rt.graph.handleToNode, rt.graph.nodes`h, rt.graph.nodes`inQueue
    ensures rt.Valid()
    ensures out.Exit? <==> old(rt.CurrentTask()) == 1
    ensures out.Exit? ==> out.code == Int32(data)
    ensures old(rt.graph.Requeues()) ==> rt.graph.queue.Items() == [old(rt.graph.Front().parent)] + old(rt.graph.queue.Items())[1..]
    ensures !old(rt.graph.Requeues()) ==> rt.graph.queue.Items() == old(rt.graph.queue.Items())[1..]
    ensures out.Continue? ==> out.next == old(rt.NextTask())
    ensures out.Continue? ==>
      rt.pool.tasks == Switched(Returned(old(rt.pool.tasks), old(rt.CurrentTask()), data, old(rt.pool.freeTask)), 0, out.next, 0)
    ensures out.Continue? ==> rt.graph.Registered() == old(rt.graph.Registered()) - Freed(old(rt.pool.tasks), old(rt.CurrentTask()))
    ensures out.Continue? ==> rt.pool.freeTask == FreeHead(old(rt.pool.tasks), old(rt.CurrentTask()), old(rt.pool.freeTask))
  {
    var current, next := rt.FinishCurrent();
    if current == 1 {
      return Exit(Int32(data));
    }
    assert Runnable(rt.pool, next);
    var entry := ReturnTo(rt, current, next, data);
    out := Continue(next, entry);
  }

  /** async_return as written, up to line 45: finish_current_task asserts
      that a next task exists (src/graph_scheduler.c:95) before line 47
      tests for the main task. When the returning task is the only queued
      one and no parent waits for it, which is how the main task's last
      async_return goes in tests/two_iters.c and tests/orphan.c, the peek
      finds no node: the assertion fails and the program aborts instead of
      exiting. */
  method FinishLastAsWritten(rt: Runtime) returns (assertionHolds: bool)
    requires rt.Valid() && |rt.graph.queue.Items()| == 1 && rt.graph.Front().parent == null
    modifies rt.graph.queue, rt.graph.nodes`inQueue
    ensures !assertionHolds
  {
    var current, next := rt.FinishCurrent();
    assertionHolds := next != 0;
  }

  /** The main task returning as the only queued task: with the next-task
      check made after the test for handle 1, the process exits with the
      main task's value. */
  method MainReturnsLast(rt: Runtime, data: int) returns (out: Outcome)
    requires rt.Valid() && |rt.graph.queue.Items()| == 1
    requires rt.graph.Front().h == 1 && rt.graph.Front().parent == null
    modifies rt.pool, rt.graph`entryOf, rt.graph.queue, rt.graph.handleToNode, rt.graph.nodes`h, rt.graph.nodes`inQueue
    ensures out == Exit(Int32(data))
  {
    out := AsyncReturn(rt, data);
  }

  /** async_return once the scheduler has finished task `h` and chosen
      `next`: `h` is completed and `next` is switched to. */
  method ReturnTo(rt: Runtime, h: Handle, next: Handle, data: int) returns (entry: Entry)
    requires rt.Valid() && rt.graph.Names(h) && 1 <= h <= rt.pool.len && rt.pool.tasks[h - 1].state != Free
    requires rt.pool.tasks[h - 1].orphaned ==> !rt.graph.NodeOf(h).inQueue
    requires next != h && Runnable(rt.pool, next)
    modifies rt.pool, rt.graph`entryOf, rt.graph.handleToNode, rt.graph.nodes`h, rt.graph.nodes`inQueue
    ensures rt.Valid()
    ensures rt.pool.tasks == Switched(Returned(old(rt.pool.tasks), h, data, old(rt.pool.freeTask)), 0, next, 0)
    ensures rt.graph.queue.Items() == old(rt.graph.queue.Items())
    ensures rt.graph.Registered() == old(rt.graph.Registered()) - Freed(old(rt.pool.tasks), h)
    ensures rt.pool.freeTask == FreeHead(old(rt.pool.tasks), h, old(rt.pool.freeTask))
  {
    ghost var tasks := rt.pool.tasks;
    Complete(rt, h, data);
    ReturnedKeepsRunnable(tasks, rt.pool.len, h, data, old(rt.pool.freeTask), next);
    entry := AsyncSwitch(rt, 0, next, 0);
  }

  /** Completing task `h` leaves every other task as switchable as it was. */
  lemma ReturnedKeepsRunnable(tasks: seq<Task>, len: int, h: Handle, data: int, freeTask: Handle, next: Handle)
    requires 1 <= h <= len <= |tasks| && next != h && RunnableIn(tasks, len, next)
    ensures RunnableIn(Returned(tasks, h, data, freeTask), len, next)
  {
  }

  /** The part of async_return between finishing and switching: task `h`
      becomes READY holding `data` and, when orphaned, is freed (the
      scheduler then asserts its node is not queued). */
  method Complete(rt: Runtime, h: Handle, data: int)
    requires rt.Valid() && rt.graph.Names(h) && 1 <= h <= rt.pool.len && rt.pool.tasks[h - 1].state != Free
    requires rt.pool.tasks[h - 1].orphaned ==> !rt.graph.NodeOf(h).inQueue
    modifies rt.pool, rt.graph`entryOf, rt.graph.handleToNode, rt.graph.nodes`h, rt.graph.nodes`inQueue
    ensures rt.Valid() && rt.pool.len == old(rt.pool.len)
    ensures rt.pool.tasks == Returned(old(rt.pool.tasks), h, data, old(rt.pool.freeTask))
    ensures rt.graph.queue.Items() == old(rt.graph.queue.Items())
    ensures rt.graph.Registered() == old(rt.graph.Registered()) - Freed(old(rt.pool.tasks), h)
    ensures rt.pool.freeTask == FreeHead(old(rt.pool.tasks), h, old(rt.pool.freeTask))
  {
    ghost var tasks, freeTask, registered := rt.pool.tasks, rt.pool.freeTask, rt.graph.Registered();
    var t := rt.pool.GetTask(h);
    rt.pool.Rewrite(h, t.(data := data, state := Ready));
    if t.orphaned {
      rt.FreeTask(h);
      assert Freed(tasks, h) == {h} && FreeHead(tasks, h, freeTask) == h;
    } else {
      assert Freed(tasks, h) == {} && FreeHead(tasks, h, freeTask) == freeTask;
      assert rt.graph.Registered() == registered;
    }
  }

  /** The task async_skip switches to: the second queued task, which
      graph_next_task brings to the front. */
  ghost function SkipTarget(rt: Runtime): Handle
    reads rt, rt.pool, rt.graph, rt.graph.queue, rt.graph.handleToNode, rt.graph.nodes
    requires rt.Valid() && |rt.graph.queue.Items()| >= 2
  {
    rt.graph.queue.Items()[1].h
  }

  /** async_skip: the running task is rotated to the back and the new front
      is switched to, the running task being suspended at `sp`. The switch
      asserts that the two differ (so at least two tasks are queued) and that
      the target is neither FREE nor READY. The target is called afresh
      when it was INIT and resumed otherwise, and the pool's length,
      capacity and free-list are untouched. */
  method AsyncSkip(rt: Runtime, sp: int) returns (entry: Entry, ghost from: Handle, ghost target: Handle)
    requires rt.Valid() && |rt.graph.queue.Items()| >= 2 && sp > 0
    requires Runnable(rt.pool, SkipTarget(rt))
    modifies rt.pool, rt.graph.queue
    ensures rt.Valid()
    ensures rt.graph.queue.Items() == Rotate(old(rt.graph.queue.Items()))
    ensures from == old(rt.graph.Front().h) && target == old(SkipTarget(rt)) && from != target
    ensures 1 <= from <= old(rt.pool.len) && 1 <= target <= old(rt.pool.len) && old(rt.pool.len) <= |old(rt.pool.tasks)|
    ensures rt.pool.tasks == Switched(old(rt.pool.tasks), from, target, sp)
    ensures rt.pool.Live() == old(rt.pool.Live())
    ensures rt.pool.len == old(rt.pool.len) && rt.pool.cap == old(rt.pool.cap)
    ensures rt.pool.freeTask == old(rt.pool.freeTask) && rt.pool.freeList == old(rt.pool.freeList)
    ensures old(rt.pool.tasks)[target - 1].state == Init ==>
      entry == Call(old(rt.pool.tasks)[target - 1].fn, old(rt.pool.tasks)[target - 1].data, old(rt.pool.tasks)[target - 1].stackPtr)
    ensures old(rt.pool.tasks)[target - 1].state != Init ==> entry == Resume(old(rt.pool.tasks)[target - 1].stackPtr)
  {
    var current, next := SkipTurn(rt);
    assert unchanged(rt, rt.pool);
    from, target := current, next;
    entry := AsyncSwitch(rt, current, next, sp);
  }

  /** The scheduler half of async_skip: the running task's handle, then
      graph_next_task's rotation and the handle of the new front. */
  method SkipTurn(rt: Runtime) returns (current: Handle, next: Handle)
    requires rt.Valid() && |rt.graph.queue.Items()| >= 2
    modifies rt.graph.queue
    ensures rt.Valid()
    ensures rt.graph.queue.Items() == Rotate(old(rt.graph.queue.Items()))
    ensures current == old(rt.graph.Front().h) && next == old(SkipTarget(rt))
    ensures current != next && 1 <= current <= rt.pool.len && 1 <= next <= rt.pool.len
  {
    FrontHandles(rt);
    current := rt.graph.Current();
    next := rt.graph.Next();
  }

  /** The first two queued tasks are registered, distinct tasks in use. */
  lemma FrontHandles(rt: Runtime)
    requires rt.Valid() && |rt.graph.queue.Items()| >= 2
    ensures rt.graph.Front().h in rt.graph.Registered() && SkipTarget(rt) in rt.graph.Registered()
    ensures rt.graph.Front().h != SkipTarget(rt)
    ensures 1 <= rt.graph.Front().h <= rt.pool.len && 1 <= SkipTarget(rt) <= rt.pool.len
  {
    var s := rt.graph.queue.Items();
    assert s[0] in rt.graph.nodes && s[1] in rt.graph.nodes && s[0] != s[1];
    assert rt.graph.NodeOf(s[0].h) == s[0] && rt.graph.NodeOf(s[1].h) == s[1];
    assert s[0].h in rt.pool.Live() && s[1].h in rt.pool.Live();
  }

  /** One pass of await's loop: `h`'s data once it is READY, otherwise
      nothing (and the caller skips). */
  method AwaitPoll(rt: Runtime, h: Handle) returns (r: Option<int>)
    requires rt.Valid() && rt.graph.queue.Items() != [] && 1 <= h <= rt.pool.len
    ensures r.Some? <==> IsReady(rt.pool, h)
    ensures r.Some? ==> r.value == rt.pool.tasks[h - 1].data
  {
    var st := rt.PollState(h);
    if st == Ready {
      var t := rt.pool.GetTask(h);
      r := Some(t.data);
    } else {
      r := None;
    }
  }

  /** The index of the first READY handle of `hs`, if any. */
  ghost function FirstReady(pool: TaskPool, hs: seq<Handle>): (r: Option<nat>)
    reads pool
    ensures r.Some? ==> r.value < |hs| && IsReady(pool, hs[r.value])
    ensures r.Some? ==> forall j :: 0 <= j < r.value ==> !IsReady(pool, hs[j])
    ensures r.None? ==> forall j :: 0 <= j < |hs| ==> !IsReady(pool, hs[j])
  {
    if hs == [] then None
    else if IsReady(pool, hs[0]) then Some(0)
    else match FirstReady(pool, hs[1..]) {
      case None => None
      case Some(k) => Some(k + 1)
    }
  }

  /** Every handle the scan of await_any reaches (those up to the first READY
      one) is a valid, nonzero handle: the source asserts `idx != 0` and
      get_task asserts `idx <= len` on each. */
  ghost predicate ScanSafe(pool: TaskPool, hs: seq<Handle>)
    reads pool
  {
    forall i :: 0 <= i < |hs| && (forall j :: 0 <= j < i ==> !IsReady(pool, hs[j])) ==> 1 <= hs[i] <= pool.len
  }

  /** The choice of one scan of await_any: the index and data of the first
      READY handle in list order. */
  datatype Pick = Pick(index: nat, data: int)

  /** One scan of await_any's loop. */
  method AwaitAnyScan(rt: Runtime, hs: seq<Handle>) returns (r: Option<Pick>)
    requires rt.Valid() && rt.graph.queue.Items() != [] && ScanSafe(rt.pool, hs)
    ensures r.None? <==> FirstReady(rt.pool, hs).None?
    ensures r.Some? ==> r.value.index == FirstReady(rt.pool, hs).value
    ensures r.Some? ==> r.value.data == rt.pool.tasks[hs[r.value.index] - 1].data
  {
    for i := 0 to |hs|
      invariant forall j :: 0 <= j < i ==> !IsReady(rt.pool, hs[j])
    {
      var h := hs[i];
      var st := rt.PollState(h);
      if st == Ready {
        FirstReadyAt(rt.pool, hs, i);
        var t := rt.pool.GetTask(h);
        return Some(Pick(i, t.data));
      }
    }
    return None;
  }

  /** A READY handle at `i` with none before it is the first READY one. */
  lemma FirstReadyAt(pool: TaskPool, hs: seq<Handle>, i: nat)
    requires i < |hs| && IsReady(pool, hs[i]) && forall j :: 0 <= j < i ==> !IsReady(pool, hs[j])
    ensures FirstReady(pool, hs) == Some(i)
  {
  }

  /** How many handles of `hs` are READY. */
  ghost function CountReady(pool: TaskPool, hs: seq<Handle>): (n: nat)
    reads pool
    ensures n <= |hs|
  {
    if hs == [] then 0 else CountReady(pool, hs[..|hs| - 1]) + (if IsReady(pool, hs[|hs| - 1]) then 1 else 0)
  }

  /** All handles are READY exactly when the count reaches the length. */
  lemma {:induction false} CountReadyAll(pool: TaskPool, hs: seq<Handle>)
    ensures CountReady(pool, hs) == |hs| <==> forall i :: 0 <= i < |hs| ==> IsReady(pool, hs[i])
  {
    if hs != [] {
      var init := hs[..|hs| - 1];
      CountReadyAll(pool, init);
      assert forall i :: 0 <= i < |init| ==> init[i] == hs[i];
    }
  }

  /** One scan of await_all's loop: every READY handle's data goes to its
      slot of `results` (when there is one), and the scan reports whether
      all `|hs|` handles were READY, the condition on which await_all
      returns. */
  method AwaitAllScan(rt: Runtime, hs: seq<Handle>, results: array?<int>) returns (done: bool)
    requires rt.Valid() && rt.graph.queue.Items() != []
    requires forall i :: 0 <= i < |hs| ==> 1 <= hs[i] <= rt.pool.len
    requires results != null ==> results.Length >= |hs|
    modifies results
    ensures done <==> forall i :: 0 <= i < |hs| ==> IsReady(rt.pool, hs[i])
    ensures results != null ==> forall i :: 0 <= i < |hs| ==>
      results[i] == if IsReady(rt.pool, hs[i]) then rt.pool.tasks[hs[i] - 1].data else old(results[i])
    ensures results != null ==> forall i :: |hs| <= i < results.Length ==> results[i] == old(results[i])
  {
    var succ := 0;
    for i := 0 to |hs|
      invariant succ == CountReady(rt.pool, hs[..i])
      invariant results != null ==> forall j :: 0 <= j < i ==>
        results[j] == if IsReady(rt.pool, hs[j]) then rt.pool.tasks[hs[j] - 1].data else old(results[j])
      invariant results != null ==> forall j :: i <= j < results.Length ==> results[j] == old(results[j])
    {
      assert hs[..i + 1][..i] == hs[..i];
      var ready := CollectOne(rt, hs[i], results, i);
      if ready {
        succ := succ + 1;
      }
    }
    assert hs[..|hs|] == hs;
    CountReadyAll(rt.pool, hs);
    done := succ == |hs|;
  }

  /** One iteration of await_all's scan: poll `h` and, when it is READY,
      copy its data to slot `i` of `results` (when there is one). */
  method CollectOne(rt: Runtime, h: Handle, results: array?<int>, i: nat) returns (ready: bool)
    requires rt.Valid() && rt.graph.queue.Items() != [] && 1 <= h <= rt.pool.len
    requires results != null ==> i < results.Length
    modifies results
    ensures ready <==> IsReady(rt.pool, h)
    ensures results != null ==> results[..] == old(results[..])[i := if ready then rt.pool.tasks[h - 1].data else old(results[i])]
  {
    var st := rt.PollState(h);
    ready := st == Ready;
    if ready {
      var t := rt.pool.GetTask(h);
      if results != null {
        results[i] := t.data;
      }
    }
  }
}
