/** The bookkeeping of async_switch (src/switch.c:41-67). The register and
    stack exchange of async_switch_asm is an abstract step: the stack
    pointer at which the source task is suspended is a parameter, and how
    the target is entered is the result. */
module Switch {
  import opened Wrappers
  import opened Scheduler

  /** How async_switch_asm enters the target: a first call of its function
      with its data on its fresh stack, or a resumption at the stack pointer
      it saved when it last switched away. */
  datatype Entry = Call(fn: int, data: int, stackPtr: int) | Resume(stackPtr: int)

  /** Task `h` can be switched to: it is in range and neither FREE nor
      READY. */
  ghost predicate Runnable(pool: TaskPool, h: Handle)
    reads pool
  {
    RunnableIn(pool.tasks, pool.len, h)
  }

  /** Record `h` of the first `len` records is neither FREE nor READY. */
  ghost predicate RunnableIn(tasks: seq<Task>, len: int, h: Handle)
  {
    1 <= h <= len <= |tasks| && tasks[h - 1].state != Free && tasks[h - 1].state != Ready
  }

  /** The task records after a switch from `from` to `to`: the target is
      RUNNING and a nonzero `from` holds the stack pointer `sp` it is
      suspended at; every other record is as it was. */
  ghost function Switched(tasks: seq<Task>, from: Handle, to: Handle, sp: int): seq<Task>
    requires 1 <= to <= |tasks| && from <= |tasks|
  {
    var entered := tasks[to - 1 := tasks[to - 1].(state := Running)];
    if from == 0 then entered else entered[from - 1 := tasks[from - 1].(stackPtr := sp)]
  }

  /** async_switch: `to` must be a task other than `from` that is neither
      FREE nor READY. An INIT target becomes RUNNING and is entered by
      calling its function; any other target keeps its state and is resumed.
      A nonzero `from` saves `sp` as its stack pointer; with `from == 0` no
      record saves anything. No other record changes, and the scheduler is
      not touched. */
  method AsyncSwitch(rt: Runtime, from: Handle, to: Handle, sp: int) returns (entry: Entry)
    requires rt.Valid()
    requires from != to && from <= rt.pool.len && Runnable(rt.pool, to)
    requires from != 0 ==> sp > 0
    modifies rt.pool
    ensures rt.Valid() && rt.pool.Live() == old(rt.pool.Live())
    ensures rt.pool.len == old(rt.pool.len) && rt.pool.cap == old(rt.pool.cap)
    ensures rt.pool.freeTask == old(rt.pool.freeTask) && rt.pool.freeList == old(rt.pool.freeList)
    ensures rt.pool.tasks == Switched(old(rt.pool.tasks), from, to, sp)
    ensures old(rt.pool.tasks[to - 1].state) == Init ==>
      entry == Call(old(rt.pool.tasks[to - 1].fn), old(rt.pool.tasks[to - 1].data), old(rt.pool.tasks[to - 1].stackPtr))
    ensures old(rt.pool.tasks[to - 1].state) != Init ==> entry == Resume(old(rt.pool.tasks[to - 1].stackPtr))
  {
    entry := SwitchTasks(rt.pool, from, to, sp);
  }

  /** The record updates of async_switch, on the task pool alone. */
  method SwitchTasks(pool: TaskPool, from: Handle, to: Handle, sp: int) returns (entry: Entry)
    requires pool.Valid()
    requires from != to && from <= pool.len && Runnable(pool, to)
    requires from != 0 ==> sp > 0
    modifies pool
    ensures pool.Valid() && pool.Live() == old(pool.Live())
    ensures pool.len == old(pool.len) && pool.cap == old(pool.cap)
    ensures pool.freeTask == old(pool.freeTask) && pool.freeList == old(pool.freeList)
    ensures pool.tasks == Switched(old(pool.tasks), from, to, sp)
    ensures old(pool.tasks[to - 1].state) == Init ==>
      entry == Call(old(pool.tasks[to - 1].fn), old(pool.tasks[to - 1].data), old(pool.tasks[to - 1].stackPtr))
    ensures old(pool.tasks[to - 1].state) != Init ==> entry == Resume(old(pool.tasks[to - 1].stackPtr))
  {
    var f2 := pool.GetTask(to);
    var firstCall := f2.state == Init;
    pool.Rewrite(to, f2.(state := Running));
    if from != 0 {
      var f1 := pool.GetTask(from);
      pool.Rewrite(from, f1.(stackPtr := sp));
    }
    entry := if firstCall then Call(f2.fn, f2.data, f2.stackPtr) else Resume(f2.stackPtr);
  }
}
