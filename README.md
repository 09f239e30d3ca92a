# c-async-await in Dafny

A model of the bookkeeping core of c-async-await, a cooperative coroutine
runtime for x86-64 Linux written in C. The model covers the following parts:

- **Run-queue storage** (`Storage`). It has a growable stack of handles and a FIFO
  queue made of a push stack and a pop stack. It also has the function-object slot
  store, whose freed slots form an intrusive free-list threaded through their
  `this_fn` field.
- **The FIFO scheduling policy** over that storage (`QueueScheduler`).
- **The chained hash map** (`HashMaps`). It has separate chaining, the
  incremental relink of `hash_map_expand` and a node free-list.
- **The graph scheduling policy** (`GraphScheduler`). It is a deque of `Node`s
  with `parent` and `in_queue` fields, plus the hash map from handle index to
  node. The deque invariant is the one `verify_queue` checks.
- **The task pool and the runtime** that pairs it with the graph policy
  (`Scheduler`). Freed task records form a LIFO free-list threaded through their
  `handle` field.
- **The state transitions of `async_switch`** (`Switch`). The register and stack
  exchange is an abstract step.
- **The surface API** (`Async`): `async_orphan`, `async_return`, `async_skip`,
  `run_async_main`, and one scan each of `await`, `await_any` and `await_all`.
- **Argument marshalling** (`Io`): `pack` and `unpack`, with an 8-byte header
  and little-endian fields.
- **The bump arena** (`ArenaAlloc`).
- **Growable strings and string views** of examples/str.c (`Str`).
- **The test-file parser** of tests/runner.c (`Runner`). It covers
  `string_read_line`, the line-classifying loop of `parse_file`, the `Command`
  argv builder and the pass check.

Pointers are modelled in two ways:

- as indices into sequences: task and function handles, hash-map nodes, and
  arenas;
- as Dafny objects: graph nodes, strings and commands.

The runtime's assertions are handled in two ways:

- A caller obligation becomes a `requires`.
- An assertion that follows from the data structure's invariant is proved as a
  consequence of that invariant.

Integers are unbounded. Where the C code truncates, this is written out: the
`(int)(long)` casts of `int_hash_fn`, `int_eql_fn` and the exit code of
`async_return`, and the byte encoding of `pack`.

## Model

| member | source | states |
|---|---|---|
| Storage.Reverse | src/storage.c:11-13 | the transfer loop's order: element k of the result is element len-1-k of the input |
| Storage.ReverseSnoc | src/storage.c:11-13 | reversing after a push puts the pushed handle first |
| Storage.PopStackAsWritten | src/storage.c:79-83 | the guard `len >= 0` as written: the slot read is inside the stack exactly when 0 < len |
| Storage.PopStackAsWrittenAdmitsEmpty | src/storage.c:80-82 | on the empty stack the guard passes and the read misses the stack |
| Storage.Stack.constructor | src/storage.h:13-17 | a zeroed stack is empty with capacity 0 |
| Storage.Stack.Push | src/storage.c:84-90 | contents gain `h` at the top; cap becomes cap*2+10 exactly when len >= cap |
| Storage.Stack.Pop | src/storage.c:79-83 | with the guard corrected to len > 0: returns the last pushed handle and drops it; buffer and cap unchanged |
| Storage.Stack.Peek | src/storage.c:91-94 | returns the top handle, changes nothing |
| Storage.Queue.constructor | src/queue_scheduler.c:43 | a zeroed queue is empty |
| Storage.Queue.Enqueue | src/storage.c:18 | the queue gains `h` at the back |
| Storage.Queue.Transfer | src/storage.c:9-14 | the pop stack receives the push stack reversed and the push stack is emptied |
| Storage.Queue.Dequeue | src/storage.c:8-16 | returns the front handle and removes it (FIFO across the transfer) |
| Storage.Queue.Peek | src/storage.c:20-27 | returns the handle the next dequeue would return; nothing changes; needs a non-empty queue |
| Storage.ChainAt | src/storage.c:44-48 | each free-list entry is a DEAD slot in range whose `this_fn` holds the next entry |
| Storage.EmptyFreeList | src/storage.c:30 | `next_free == 0` exactly when the free-list is empty |
| Storage.AppendKeepsStore | src/storage.c:30-40 | appending a slot at `count` after growth keeps the store invariant |
| Storage.ReuseKeepsStore | src/storage.c:41-50 | the head slot is in range and DEAD (the source's assertion), and reusing it advances the head to the index it stored |
| Storage.FreeKeepsStore | src/storage.c:53-65 | freeing a live slot makes it the head, linked to the old head, and keeps the invariant |
| Storage.FunctionStore.constructor | src/queue_scheduler.c:42 | a zeroed store has no slots and an empty free-list |
| Storage.FunctionStore.NewHandle | src/storage.c:29-51 | an empty free-list appends at `count` and returns count+1; otherwise slot `next_free` is reused and the head advances to its stored index; the slot holds `f` with its own handle |
| Storage.FunctionStore.Append | src/storage.c:30-40 | handle count+1, cap grows to cap*2+10 when full, earlier slots unchanged |
| Storage.FunctionStore.Reuse | src/storage.c:41-50 | handle `next_free`, whose slot was DEAD; head becomes the slot's stored index; only that slot changes |
| Storage.FunctionStore.FreeHandle | src/storage.c:53-65 | handles 0, 1 and DEAD slots are refused; the slot becomes DEAD, stores the old head and becomes the head |
| Storage.FreeThenNewReuses | src/storage.c:41-65 | free_handle then new_handle returns the same handle and restores the head (LIFO reuse) |
| QueueScheduler.QueueScheduler.constructor | src/queue_scheduler.c:9-10 | the static state starts with an empty queue and store |
| QueueScheduler.QueueScheduler.InitQueueScheduler | src/queue_scheduler.c:41-46 | resets the store and the queue to empty |
| QueueScheduler.QueueScheduler.Current | src/queue_scheduler.c:12 | returns the queue front, nothing changes |
| QueueScheduler.QueueScheduler.NextCoroutine | src/queue_scheduler.c:13-16 | the front handle moves to the back; the multiset of queued handles is unchanged |
| QueueScheduler.QueueScheduler.AddCoroutine | src/queue_scheduler.c:20-24 | new_handle's handle is placed at the back of the queue and its slot holds `elem` with `thisFn` set to it; with an empty free-list the handle is count+1, count grows by one, the capacity grows when full and earlier slots and the free-list are unchanged; otherwise the handle is the old free head (a DEAD slot), the free-list advances to that slot's `thisFn`, count and capacity stay and every other slot is unchanged |
| QueueScheduler.QueueScheduler.FreeCoroutine | src/queue_scheduler.c:25 | only the store changes: the slot becomes DEAD, links to the old free head through `thisFn`, gets its stack top reset, and heads the free-list; count, capacity, every other slot and the queue are unchanged |
| QueueScheduler.QueueScheduler.TerminateCoroutine | src/queue_scheduler.c:29 | removes and returns the front handle; no slot is freed |
| HashMaps.IsEquivalence | src/hashmap.c:43 | the equality callback, where defined, is symmetric and transitive (what the map needs to keep keys unique) |
| HashMaps.UniqueFrame | src/hashmap.c:82-112 | removing nodes from the chains without touching the keys of the others keeps every key at most once on the chains |
| HashMaps.UniqueLink | src/hashmap.c:59-79 | linking a node whose key no chain node holds keeps every key at most once on the chains |
| HashMaps.HashMap.constructor | src/graph_scheduler.c:215-216 | a zeroed map with the given callbacks, cap 0 and no nodes |
| HashMaps.HashMap.FirstMatch | src/hashmap.c:41-46 | the position of the first chain node whose key size, hash and key match; none before it matches |
| HashMaps.HashMap.LookupMeaning | src/hashmap.c:36-47 | lookup finds a matching live node exactly when one exists; cap 0 gives none |
| HashMaps.HashMap.Find | src/hashmap.c:36-48 | hash_map_find returns the lookup result: NULL when cap is 0 or no node matches |
| HashMaps.HashMap.ScanChain | src/hashmap.c:41-46 | the chain walk stops at the first match |
| HashMaps.HashMap.Expand | src/hashmap.c:8-34 | cap becomes old*2+10, every node sits in cell hash % cap, the live set, pool and free-list are unchanged |
| HashMaps.HashMap.RelinkCell | src/hashmap.c:14-30 | after one old cell is processed, the cells up to it are placed by the new modulus; no node is lost |
| HashMaps.HashMap.RelinkStep | src/hashmap.c:16-29 | a node stays in place (keeping order) or moves to the head of its new cell |
| HashMaps.HashMap.MoveToHead | src/hashmap.c:18-25 | the node leaves its cell and heads cell hash % new_cap |
| HashMaps.HashMap.Insert | src/hashmap.c:50-80 | expands first when node_max >= cap*5 (so cap != 0); a present key returns its node and allocates nothing; a new key gets a node at the head of its cell, taken from the free-list or else counted in node_max; each key stays on the chains at most once |
| HashMaps.HashMap.Place | src/hashmap.c:59-79 | once the map has cells: a key the lookup finds returns that node with nothing changed; otherwise a node for the key heads its cell, taken from the free-list or else counted in node_max |
| HashMaps.HashMap.AbsentOfLookup | src/hashmap.c:59-64 | when the lookup finds nothing, no chain node holds the key, so linking a new node keeps keys unique |
| HashMaps.HashMap.Allocate | src/hashmap.c:65-79 | the new node is the free head if any (the head advances), else a fresh node with node_max + 1; it heads cell `c` |
| HashMaps.HashMap.Remove | src/hashmap.c:82-112 | NULL for cap 0 or a missing key with nothing changed; otherwise unlinks exactly the matching node and keeps the others in order; in both cases a later lookup of the key finds nothing |
| HashMaps.HashMap.OnlyMatch | src/hashmap.c:87-112 | the node remove finds is the only chain node holding the key, so unlinking it leaves none |
| HashMaps.HashMap.UnlinkAtAsWritten | src/hashmap.c:97-110 | as written: the node leaves its chain, the free-list is unchanged, and the node is then neither live nor free (lost to later inserts) |
| HashMaps.HashMap.UnlinkAt | src/hashmap.c:97-110 | position p leaves its chain and (corrected) heads the free-list |
| HashMaps.HashMap.SetVal | src/graph_scheduler.c:67 | only the node's `val` changes |
| GraphScheduler.Int32 | src/graph_scheduler.c:206 | a C int cast: in range, identity on ints |
| GraphScheduler.IntHash | src/graph_scheduler.c:209-212 | int_hash_fn is the identity on non-negative int keys |
| GraphScheduler.IntEql | src/graph_scheduler.c:204-207 | int_eql_fn is zero exactly when the keys are equal as ints |
| GraphScheduler.IntEqlIsEquivalence | src/graph_scheduler.c:204-207 | int_eql_fn is symmetric and transitive, so the handle map keeps handles unique |
| GraphScheduler.Node.constructor | src/graph_scheduler.c:56 | calloc: no parent, handle 0, not queued |
| GraphScheduler.NodeQueue.InvariantIsGoodItems | src/graph_scheduler.c:29-47 | the verify_queue invariant is exactly: queued nodes are present, in_queue, nonzero handle, pairwise distinct |
| GraphScheduler.NodeQueue.constructor | src/graph_scheduler.c:192 | a zeroed deque is empty and satisfies the invariant |
| GraphScheduler.NodeQueue.VerifyQueue | src/graph_scheduler.c:29-47 | returns true exactly when the queue invariant holds |
| GraphScheduler.NodeQueue.PushBack | src/graph_scheduler.c:64 | the node joins the back |
| GraphScheduler.NodeQueue.PushFront | src/graph_scheduler.c:88 | the node joins the front |
| GraphScheduler.NodeQueue.PopFront | src/graph_scheduler.c:74 | returns and removes the front node, or null on an empty deque |
| GraphScheduler.NodeQueue.PeekFront | src/graph_scheduler.c:93 | returns the front node, or null |
| GraphScheduler.GoodItemsTail | src/graph_scheduler.c:38-45 | dropping the front keeps the invariant and the front is not queued twice |
| GraphScheduler.GoodItemsSnoc | src/graph_scheduler.c:63-65 | pushing an unqueued node at the back keeps the invariant |
| GraphScheduler.GoodItemsCons | src/graph_scheduler.c:87-89 | pushing an unqueued node at the front keeps the invariant |
| GraphScheduler.Rotate | src/graph_scheduler.c:163-182 | the front goes to the back, the rest keeps its order |
| GraphScheduler.RotatePermutes | src/graph_scheduler.c:163-182 | rotation keeps the multiset of queued nodes |
| GraphScheduler.ItemsOkRotate | src/graph_scheduler.c:166-178 | rotation keeps the queue invariant |
| GraphScheduler.RotateMembers | src/graph_scheduler.c:163-182 | rotation keeps the same members |
| GraphScheduler.RotateN | src/graph_scheduler.c:163-182 | k rotations keep the length |
| GraphScheduler.RotateShift | src/graph_scheduler.c:163-182 | one more rotation shifts the split point by one |
| GraphScheduler.RotateNIsShift | src/graph_scheduler.c:163-182 | k rotations bring element k to the front with the earlier ones behind, in order |
| GraphScheduler.RotateNAdd | src/graph_scheduler.c:163-182 | a+b rotations are a rotations then b |
| GraphScheduler.RotateNPeriod | src/graph_scheduler.c:163-182 | round-robin: the order repeats every queue-length rotations |
| GraphScheduler.TwoTasksAlternate | tests/two_iters.c:1-41 | two queued tasks alternate at the front: first after even turns, second after odd |
| GraphScheduler.Graph.constructor | src/graph_scheduler.c:192-220 | the graph starts with an empty deque, no registrations and the int callbacks |
| GraphScheduler.Graph.RegisteredInRange | src/graph_scheduler.c:49-53 | registered handles are positive C ints |
| GraphScheduler.Graph.LookupRegistered | src/graph_scheduler.c:130-133 | the map finds a handle exactly when it is registered, and then finds its entry |
| GraphScheduler.Graph.Current | src/graph_scheduler.c:151-161 | returns the front node's handle, which is registered; nothing changes |
| GraphScheduler.Graph.RotateQueue | src/graph_scheduler.c:166-174 | pop front then push back rotates the queue and keeps its invariant |
| GraphScheduler.Graph.PopRunning | src/graph_scheduler.c:124-129 | the front node leaves the queue with in_queue false; other nodes keep their flags |
| GraphScheduler.Graph.PushFrontNode | src/graph_scheduler.c:85-89 | an unqueued node is flagged and heads the queue |
| GraphScheduler.Graph.PushBackNode | src/graph_scheduler.c:61-65 | an unqueued node is flagged and joins the back |
| GraphScheduler.Graph.Next | src/graph_scheduler.c:163-182 | the queue is rotated and the new front's handle is returned |
| GraphScheduler.Graph.Finish | src/graph_scheduler.c:70-100 | the front leaves the queue and is reported; a parent waiting outside the queue heads it and is next, otherwise the new front is next; `next` is 0 exactly when the queue is left empty |
| GraphScheduler.Graph.RegisterAsWritten | src/graph_scheduler.c:49-59 | as written: `n` stays NULL (and line 59 writes through it) exactly when the handle map has a recycled hash node |
| GraphScheduler.Graph.FindNode | src/graph_scheduler.c:130-137 | the lookup returns the node registered for `h`, which carries `h` |
| GraphScheduler.Graph.Adopt | src/graph_scheduler.c:138-144 | the child records its parent and is pushed in front only when it was not queued |
| GraphScheduler.Graph.WaitReady | src/graph_scheduler.c:120-145 | the caller leaves the queue and becomes the child's parent; an unqueued child heads the queue; other parents unchanged; a second waiter is refused by the requires |
| GraphScheduler.Graph.WaitFor | src/graph_scheduler.c:124-144 | the queue work of wait_ready for the child's node |
| GraphScheduler.Graph.Release | src/graph_scheduler.c:111-112 | an unqueued node gives up its handle |
| GraphScheduler.Graph.FreeTask | src/graph_scheduler.c:102-113 | the entry must exist and the node be unqueued; the registration is dropped, the node released and parked for reuse, the queue and other registrations unchanged |
| GraphScheduler.Graph.RemoveEntry | src/graph_scheduler.c:104-107 | the entry of `h` moves to the map's free-list and its node is returned |
| GraphScheduler.Graph.Register | src/graph_scheduler.c:49-68 | corrected: `h` maps to a node with handle h, no parent, in_queue, appended at the back; a recycled node is reused, else one is allocated |
| GraphScheduler.Graph.Bind | src/graph_scheduler.c:67 | the hash node points to the node and `h` is registered with that entry |
| GraphScheduler.Graph.InsertEntry | src/graph_scheduler.c:52-53 | hash_map_insert yields a fresh entry for `h`, recycled from the free-list (with its old node) when there is one |
| GraphScheduler.Graph.TakeNode | src/graph_scheduler.c:54-65 | the intended node choice, reset to `h` and queued at the back |
| GraphScheduler.Graph.AddNode | src/graph_scheduler.c:56 | a zeroed node joins the graph |
| GraphScheduler.Graph.ResetNode | src/graph_scheduler.c:59-60 | the node holds `h` and no parent |
| Scheduler.TaskChainAt | src/scheduler.c:41-47 | each free-list entry is a FREE record in range whose handle holds the next entry |
| Scheduler.LiveUpdate | src/scheduler.c:49-53 | rewriting a record adds or removes its handle from the tasks in use |
| Scheduler.LiveGrow | src/scheduler.c:30-39 | appending a record in use adds its handle |
| Scheduler.EmptyPoolList | src/scheduler.c:14 | `free_task == 0` exactly when the free-list is empty |
| Scheduler.AppendKeepsPool | src/scheduler.c:14-39 | appending at len keeps the pool invariant |
| Scheduler.ReuseKeepsPool | src/scheduler.c:40-53 | the free head is in range and FREE (the source's assertions); reusing it keeps the invariant with the head advanced |
| Scheduler.ReleaseKeepsPool | src/scheduler.c:86-89 | freeing a record in use keeps the invariant with it as the head |
| Scheduler.RewriteKeepsPool | src/scheduler.c:49-53 | rewriting a record without changing FREE-ness or handle keeps the invariant |
| Scheduler.TaskPool.constructor | src/scheduler.c:123 | the zeroed pool is empty |
| Scheduler.TaskPool.NewTask | src/scheduler.c:11-54 | empty free-list: handle len+1, a fresh INIT record, cap grows to cap*2+10 when len == cap; otherwise the FREE head is reused, the head advances, and only state, handle, fn, data and stack_ptr change |
| Scheduler.TaskPool.Append | src/scheduler.c:14-39 | the appended record is INIT, not orphaned, with stack_ptr = base + STACK_SIZE and its own handle |
| Scheduler.TaskPool.Reuse | src/scheduler.c:40-53 | stack_base and orphaned are retained on reuse |
| Scheduler.TaskPool.GetTask | src/scheduler.c:61-65 | requires 1 <= idx <= len and returns that record |
| Scheduler.TaskPool.Release | src/scheduler.c:86-89 | the record becomes FREE, stores the old head, becomes the head |
| Scheduler.TaskPool.Rewrite | src/switch.c:55 | an in-place record write that keeps the invariant |
| Scheduler.ReleaseThenNewReuses | src/scheduler.c:40-53 | free then start returns the same handle, restores the head and keeps `orphaned` |
| Scheduler.Runtime.constructor | src/scheduler.c:122-132 | async_init: an empty pool and graph |
| Scheduler.Runtime.StartNewTask | src/scheduler.c:11-59 | the handle (len+1 or the free head) is registered exactly once and queued at the back; every other record is unchanged; an appended record is a fresh INIT task on the given stack (free-list unchanged, capacity grown when full); a reused record keeps its stack base and orphan flag, becomes INIT with fn, data and a reset stack pointer, and the free-list advances to the handle it held |
| Scheduler.Runtime.PollState | src/scheduler.c:67-73 | returns the record's state, nothing changes |
| Scheduler.Runtime.FrontInUse | src/scheduler.c:97-100 | the running task is registered and its record is in use |
| Scheduler.Runtime.CurrentTask | src/scheduler.c:97-100 | the current handle names a record in use |
| Scheduler.Runtime.FinishCurrent | src/scheduler.c:92-95 | the graph's finish step: `next` is the task NextTask predicts, 0 exactly when no task is left; registrations and pool unchanged |
| Scheduler.Runtime.FreeTask | src/scheduler.c:80-90 | the scheduler drops `h`, then the record joins the free-list as its head |
| Switch.AsyncSwitch | src/switch.c:41-67 | needs distinct handles and a target neither FREE nor READY; an INIT target becomes RUNNING and is called with fn and data, others are resumed; only a nonzero `from` saves its stack pointer; no other record changes |
| Switch.SwitchTasks | src/switch.c:46-64 | the record updates of the switch on the pool |
| Async.AsyncOrphan | src/async.c:15-18 | only the task's `orphaned` flag changes |
| Async.RunAsyncMain | src/async.c:26-32 | the first spawn on a fresh runtime gets handle 1 and is entered by calling its function |
| Async.SpawnMain | src/async.c:26-29 | the first spawn gets handle 1 and is the only queued task |
| Async.AsyncReturn | src/async.c:42-58 | handle 1 exits with the payload cast to int, needing no next task; otherwise the task is READY with the payload, freed when orphaned (its handle then heads the free-list), and the next task is switched to without saving a stack pointer |
| Async.FinishLastAsWritten | src/graph_scheduler.c:91-97 | as written: when main is the only queued task, finishing it finds no next node, so the assertion at line 95 fails before async.c:47 is reached |
| Async.MainReturnsLast | src/async.c:42-49 | corrected: main returning as the last queued task exits with its value |
| Async.ReturnTo | src/async.c:50-57 | after finishing: complete the task, then switch to the next with `from` 0; an orphaned task heads the free-list, otherwise the head is unchanged |
| Async.ReturnedKeepsRunnable | src/async.c:50-56 | completing a task leaves the other tasks switchable |
| Async.Complete | src/async.c:50-55 | the task becomes READY with the payload and is freed when orphaned, its handle then heading the free-list; otherwise the free-list head is unchanged |
| Async.AsyncSkip | src/async.c:60-66 | the queue rotates and the new front is switched to, saving the current stack pointer; the target is called with fn and data when it was INIT and resumed otherwise; the pool's live set, length, capacity and free-list are unchanged |
| Async.SkipTurn | src/async.c:61-62 | the current and next handles differ and are in range |
| Async.FrontHandles | src/async.c:61-63 | the first two queued tasks are registered, distinct, in use |
| Async.AwaitPoll | src/async.c:34-40 | await yields the data exactly when the task is READY |
| Async.FirstReady | src/async.c:70-79 | the index of the first READY handle in list order, none before it |
| Async.AwaitAnyScan | src/async.c:68-82 | one scan returns the first READY handle's index and data, or nothing |
| Async.FirstReadyAt | src/async.c:70-79 | a READY handle with none before it is the first READY one |
| Async.CountReady | src/async.c:86-96 | the count is at most the number of handles |
| Async.CountReadyAll | src/async.c:99 | the count reaches len exactly when all handles are READY |
| Async.AwaitAllScan | src/async.c:84-103 | reports done exactly when all handles are READY; each READY handle's data is in its result slot; other slots unchanged |
| Async.CollectOne | src/async.c:88-95 | one handle of the scan: the slot gets its data when READY |
| Io.Width | src/io.c:141-158 | `i` and `u` take 4 bytes, `p` takes 8 |
| Io.ValidPrefix | src/io.c:160-163 | the format is scanned up to the first unknown character |
| Io.Offset | src/io.c:132 | fields start at offset 8 or later |
| Io.OffsetStep | src/io.c:145-157 | each field advances the offset by its width |
| Io.OffsetMonotone | src/io.c:140-158 | offsets grow by at least 4 per field |
| Io.LE | src/io.c:144 | memcpy of an integer: n bytes |
| Io.FromLE | src/io.c:188 | reading n bytes gives a value below 256^n |
| Io.FromLEofLE | src/io.c:144-188 | bytes read back give the value modulo 256^n |
| Io.EncodeField | src/io.c:141-158 | a field's bytes have its width |
| Io.DecodeEncode | src/io.c:141-200 | every value of a field's kind reads back as written |
| Io.Fields | src/io.c:140-158 | the field bytes take the sum of the widths |
| Io.Header | src/io.c:166-167 | the header is 8 bytes |
| Io.PackOverrunAsWritten | src/io.c:143 | the written check passes "i" in an 8-byte buffer although the field ends at 12 |
| Io.PackFitsBounds | src/io.c:143-155 | the intended check implies the written one and keeps every field within `size` |
| Io.Pack | src/io.c:128-169 | with all fields known: returns 8 + the field widths, writes that length and `size` to the header, fields at their offsets; an unknown character returns -1 with the header unwritten |
| Io.PackFields | src/io.c:134-165 | the loop writes each known field at its offset and stops at the first unknown one |
| Io.PutField | src/io.c:144 | one memcpy at `at`, the rest unchanged |
| Io.PutHeader | src/io.c:166-167 | the header bytes are written, the rest unchanged |
| Io.Unpack | src/io.c:171-210 | decodes the known fields up to the first unknown one; returns the header's size, or -1 for an unknown character |
| Io.Decoded | src/io.c:178-207 | value j is field j decoded from its bytes |
| Io.FieldAt | src/io.c:188-198 | the bytes of field k have its width |
| Io.FieldsPrefix | src/io.c:140-158 | the fields of a format prefix are a prefix of the fields |
| Io.FieldInPacked | src/io.c:144-156 | in packed bytes, field k holds the encoding of argument k |
| Io.UnpackAfterPack | src/io.c:128-210 | packed bytes pass unpack's assertions, give back `size` and decode to the packed values |
| Io.HeaderBack | src/io.c:166-175 | the header reads back as length and size |
| Io.PackThenUnpack | src/io.c:128-210 | pack then unpack on one buffer returns `size` and the packed values |
| ArenaAlloc.Chain.Init | src/arena.c:6-13 | one arena with len 0, cap 64, a 64-byte buffer and no successor |
| ArenaAlloc.Chain.Alloc | src/arena.c:25-46 | with the new buffer sized as intended: the first arena from `from` that fits strictly takes the request at its fill; otherwise doubling arenas are linked at the tail; only that fill and the tail change; the bytes lie within the buffer |
| ArenaAlloc.FirstFit | src/arena.c:26-33 | the first arena that fits; none before it fits |
| ArenaAlloc.Grown | src/arena.c:35-42 | intended: the new arena's buffer equals its doubled capacity |
| ArenaAlloc.GrownAsWritten | src/arena.c:38-39 | as written: capacity doubled, buffer the old capacity |
| ArenaAlloc.Tail | src/arena.c:35-44 | new arenas double in capacity until one fits, which takes the request at 0 (the loop terminates) |
| ArenaAlloc.OutcomeMeaning | src/arena.c:25-45 | the request lands in the first fitting arena or a new tail one; only that fill changes; the chain stays valid |
| ArenaAlloc.ExactFillMovesOn | src/arena.c:28 | a request that would exactly fill an arena moves on |
| ArenaAlloc.OverrunAsWritten | src/arena.c:38-39 | 100 bytes on a fresh arena land at offset 0 of a new arena whose buffer holds only 64 bytes |
| ArenaAlloc.OutcomeAppend | src/arena.c:35-42 | linking a new arena after an unfitting tail leaves the outcome unchanged |
| ArenaAlloc.WalkIsOutcome | src/arena.c:26-44 | the loop's turn-by-turn walk ends where the outcome says |
| ArenaAlloc.OutcomeHere | src/arena.c:28-31 | the walk stops in an arena that fits |
| ArenaAlloc.OutcomeSkip | src/arena.c:32-33 | the walk moves past an arena that does not fit |
| Str.String.Init | examples/str.c:45 | the empty string with no buffer |
| Str.String.Realloc | examples/str.c:55 | realloc: a fresh buffer of the new size keeps the old chars; len and cap unchanged |
| Str.CopyInto | examples/str.c:120 | memcpy: the chars before `at` are kept and `b` follows them |
| Str.String.Append | examples/str.c:52-61 | content gains `c`, stays terminated; cap becomes cap*2+10 in a new buffer when len+2 >= cap, else the buffer is kept |
| Str.String.Clear | examples/str.c:74-78 | content is empty; buffer and cap kept |
| Str.String.Concat | examples/str.c:108-123 | content is a ++ b, terminated; cap grows by cap*2+10 steps until it exceeds both lengths plus 2; the buffer is replaced only if it grew |
| Str.String.Resize | examples/str.c:188-204 | shrinking truncates and keeps the buffer; growing gives cap new_size+1 and pads with `pad_char` (intended fill) |
| Str.Clone | examples/str.c:80-91 | the destination holds the source's text and length, terminated; its cap grows by steps past len+2 |
| Str.EmptyCloneReadsNull | examples/str.c:89 | a string that never allocated makes the source's clone read from NULL |
| Str.GrowCap | examples/str.c:112-115 | the grown capacity exceeds `need`, is never below the old one, and overshoots by at most one step |
| Str.NewCap | examples/str.c:112-115 | the capacity loop computes GrowCap |
| Str.Padding | examples/str.c:200 | k copies of the pad char |
| Str.ResizeFillAsWritten | examples/str.c:200 | the written memset covers new_size+1 chars from offset len |
| Str.ResizeOverrunAsWritten | examples/str.c:197-200 | growing a non-empty string fills len chars past the new buffer |
| Str.Substr | examples/str.c:177-180 | the view is the n chars from `start` |
| Str.Span | examples/str.c:129-139 | the span never exceeds the text |
| Str.SpanMeaning | examples/str.c:131-134 | the span is a maximal prefix of the class |
| Str.TrimLeft | examples/str.c:129-139 | the longest prefix of `c` is removed and its length returned |
| Str.TrimLeftWs | examples/str.c:141-150 | the longest prefix of spaces and tabs in any mix is removed and its length returned |
| Str.SplitWsOnce | examples/str.c:152-175 | the token is the first maximal non-whitespace run, the view is what follows, the result says whether the token is non-empty |
| Str.SpanExact | examples/str.c:131-134 | a prefix of the class followed by the end or another char is the span |
| Str.WordsAreWords | examples/str.c:152-175 | every word is non-empty and holds no whitespace |
| Str.SplitWords | examples/str.c:152-175 | a split takes the first word and leaves the other words |
| Str.WordsOfJoined | examples/str.c:152-175 | words joined by spaces split back into themselves |
| Str.JoinedSplit | examples/str.c:152-175 | a space then a word: the split takes the word |
| Runner.NewlineAt | tests/runner.c:207-209 | the position of the first newline |
| Runner.LinesOfUnlines | tests/runner.c:289 | lines written out one per line read back; a final unterminated line is not read |
| Runner.NewlineIsFirst | tests/runner.c:207-209 | a newline with none before it is the first |
| Runner.ReadLine | tests/runner.c:204-213 | returns true exactly when a newline follows, with the chars before it as the line; at EOF returns false and the chars read form no line |
| Runner.LineAt | tests/runner.c:204-213 | a newline ends the first line read |
| Runner.Trim | tests/runner.c:291 | string_ref_trim_left_ws leaves a suffix of the line |
| Runner.ClassifyMeaning | tests/runner.c:290-349 | after trimming spaces and tabs: exactly two `$`, `!`, `#`, `%` make compile, run, output, input lines; only dashes make a split line |
| Runner.MarkSpan | tests/runner.c:296 | a mark run of length 2 is exactly two marks |
| Runner.Classes | tests/runner.c:289-352 | one class per line |
| Runner.Present | tests/runner.c:189-190 | one argv entry per word |
| Runner.PresentAt | tests/runner.c:187-190 | entry i is a copy of word i |
| Runner.PresentAppend | tests/runner.c:181-192 | entries of appended words append |
| Runner.Command.Init | tests/runner.c:169 | the empty command |
| Runner.Command.Append | tests/runner.c:181-192 | a copy of the argument is added (NULL for an empty one); cap grows to cap*2+10 when len+1 >= cap |
| Runner.Command.Finish | tests/runner.c:194-202 | a NULL is added, making args an argv |
| Runner.RefClone | tests/runner.c:111-114 | the clone owns the view's chars, or no buffer for an empty view |
| Runner.AppendWords | tests/runner.c:298-301 | the command gains the words of the text in order |
| Runner.WordStep | tests/runner.c:299-300 | one split moves the first word into the entries |
| Runner.ProcessLine | tests/runner.c:290-352 | the loop body: the accumulator takes one Step for the line's class, and each command gains its words |
| Runner.MarkedWords | tests/runner.c:296-311 | the words each command gets from a trimmed line |
| Runner.CommandLine | tests/runner.c:296-311 | exactly two marks add the words after them to the command |
| Runner.ProcessText | tests/runner.c:312-349 | the output, input, split and other lines |
| Runner.SplitOrOther | tests/runner.c:331-349 | dashes close a run, anything else is ignored |
| Runner.TextLine | tests/runner.c:312-329 | the trimmed text is appended, after a newline when the previous line was of the same kind |
| Runner.ParseFile | tests/runner.c:263-366 | runs in file order, one per split line; with no split line, the single head node of run_list_init with empty input and output; each command gets its lines' words in order, then NULL |
| Runner.ParseLines | tests/runner.c:289-352 | every complete line is processed in order |
| Runner.Regroup | tests/runner.c:289 | the next line moves from ahead to done |
| Runner.ConsumeLine | tests/runner.c:289-353 | one turn of the loop extends accumulator and commands by the line |
| Runner.CompileArgsStep | tests/runner.c:296-303 | the compile command holds the words of all lines so far |
| Runner.RunArgsStep | tests/runner.c:304-311 | the run command holds the words of all lines so far |
| Runner.ClassesSnoc | tests/runner.c:289-352 | classes of one more line append its class |
| Runner.SplitClosesRun | tests/runner.c:331-346 | a split appends the pending input and output as the next run and clears both |
| Runner.RunsInFileOrder | tests/runner.c:332-344 | runs are only added at the end, one per split line |
| Runner.StepKeepsRuns | tests/runner.c:331-346 | one line keeps the closed runs, adding one for a split |
| Runner.OutputLinesJoined | tests/runner.c:312-320 | consecutive output lines are joined by a newline |
| Runner.BlankLineGluesOutput | tests/runner.c:315-318 | a line between two output lines glues their texts without a newline |
| Runner.ClassifyBlank | tests/runner.c:330-349 | the empty line is of no class |
| Runner.ClassifyOutput | tests/runner.c:312-320 | `## x` is an output line of text x |
| Runner.ClassifyInputAndSplit | tests/runner.c:321-346 | `%% 1` is an input line "1", `---` a split line |
| Runner.SplitClonesNullAsWritten | tests/runner.c:338-339 | a run closed before any output line clones an output string that owns no buffer |
| Runner.CStr | tests/runner.c:499-500 | what strcmp and strlen see: the text before the first NUL, which holds no NUL |
| Runner.PassesWithoutNul | tests/runner.c:499-500 | when the output read holds no NUL, equal lengths plus strcmp equality hold exactly when it equals the expected text |
| Runner.OutputMatches | tests/runner.c:499-500 | the pass check: a run passes exactly when the output read equals the expected text |
| Runner.KeptAsWritten | tests/runner.c:415 | as written, each read is kept up to its first NUL: the kept text holds no NUL and is no longer than what was read |
| Runner.KeptWithoutNul | tests/runner.c:415 | a child that writes no NUL is kept whole |
| Runner.NulOutputTruncatedAsWritten | tests/runner.c:415 | a child writing "a\0b" is read back as "a" and passes against an expected "a" |
| Runner.ReadOutputAsWritten | tests/runner.c:407-420 | reads until the first read shorter than 1023 chars, keeping each read up to its first NUL |
| Runner.ReadOutput | tests/runner.c:407-420 | corrected: reads until the first read shorter than 1023 chars, keeping every char read |

## Left out

- The inline assembly of `async_switch_asm`: the register save and stack
  exchange are an abstract step. Its result says whether the target is called
  or resumed.
- The end of `graph_wait_ready` after `async_skip`. It depends on real context
  switching.
- The polling loops of `await`, `await_any` and `await_all`. One scan is
  modelled, and the skip between scans is `Async.AsyncSkip`.
- The orphan test's claim that ten orphaned spawns, each followed by a skip,
  stay at handles 1 and 2 (tests/orphan.c). It needs the whole switching
  loop. The LIFO reuse it rests on is `Scheduler.ReleaseThenNewReuses`.
- Stack mapping (`mmap`/`munmap`) is left out. A stack is an opaque positive
  base address given as a parameter.
- The memory-release functions are left out: `deinit_store`, `deinit_stack`,
  `async_deinit`, `hash_map_deinit`, `graph_cleanup`, `arena_deinit`,
  `string_deinit`, `command_deinit`, `run_list_deinit`.
- The queue scheduler's `get_coroutine` and `cleanup` are left out. They are
  an address computation and memory release.
- `graph_poll_task` is left out. It is only a read, which `Scheduler.Runtime.PollState` covers.
- The socket wrappers and retry loops of src/io.c are left out: they are system calls.
- The test runner's file handling is left out: `fopen`, `run_in_fork` apart
  from its read loop, `command_execute`, `run_test` and `main`. A test file is
  passed to `Runner.ParseFile` as its sequence of chars. The pipe reads are
  passed to `Runner.ReadOutput` as the chars each read returns; a failing
  read (which exits) and the child's exit status are not modelled.
- `string_from_cstr`, `string_ref_from_cstr`, `string_reserve` and
  `string_ref` are left out. None is used by the modelled operations.
  `string_concat_with_cstr` appears only in the read loop, as `Runner.CStr`.
- The arena's pointer identity is not modelled: the model holds the chain as a
  sequence of (fill, capacity, buffer size) triples.
- `parse_file`'s `RunList` is modelled as a sequence of (input, output) pairs.
  The strings of a run are their texts, plus a flag saying whether the string
  owns a buffer.
- Runner.Command.Append: the `len` and `cap` fields of a `Command` are not
  checked against 32-bit limits.
- Runner.OutputMatches: strcmp on a NULL output is not modelled. That happens
  when a string never allocated.
- Storage.Stack.Peek: requires a non-empty stack, where `peek_stack`
  asserts only `len >= 0`; its one caller, `peek_queue`, peeks the pop stack
  only when it is non-empty.
- Str.String.Resize: requires `new_size >= 0`. The source does not guard
  against a negative size.
- Str.Substr: requires non-negative `start` and `len`. The source only asserts
  upper bounds.
- ArenaAlloc.Chain.Alloc: requires non-negative `elem_cnt` and `elem_size`, and
  the product is not wrapped to 32 bits.
- Str.GrowCap: the `cap * 2 + 10` growth is computed without 32-bit overflow.
  The same holds for every other capacity rule in the model.
- Io.Pack: requires `size < 2^31`, the header's int range. `args` holds one
  integer per field; the `va_arg` type mismatch is out of scope.
- HashMaps.HashMap.Insert and HashMaps.HashMap.Remove require the equality
  callback to be symmetric and transitive (`IsEquivalence`); the source
  assumes it silently, and the graph scheduler's `int_eql_fn` meets it.
- Io.Unpack: requires the source's assertions (`UnpackOk`) instead of modelling
  an abort.

## Findings

| source | as written | input that shows it | evidently intended | confidence | as-written member | corrected member |
|---|---|---|---|---|---|---|
| src/storage.c:80 | `assert(s->len >= 0)` then `len--` and a read of `elems[len]` | popping an empty stack (len 0) passes the assertion and reads index -1 | `assert(s->len > 0)` | not executed | Storage.PopStackAsWrittenAdmitsEmpty | Storage.Stack.Pop |
| src/hashmap.c:108-109 | `n->next = h->free; h->free = n->next;` | any successful remove: the free head stays the same and the removed node is on no list | `h->free = n;` | not executed | HashMaps.HashMap.UnlinkAtAsWritten | HashMaps.HashMap.UnlinkAt |
| src/graph_scheduler.c:54-59 | `n` is set only when `hash_node->val` is NULL, then dereferenced | registering a handle whose hash node is recycled with `val` set (after the remove fix) | reuse the node `val` points to | not executed | GraphScheduler.Graph.RegisterAsWritten | GraphScheduler.Graph.Register |
| src/graph_scheduler.c:95 | `assert(next_node)` in the finish step, which async_return calls before its handle-1 test (src/async.c:45-47) | main returning while it is the only queued task, as at the end of tests/two_iters.c:35 and tests/orphan.c:44 | let handle 1 exit without a next task | not executed | Async.FinishLastAsWritten | Async.MainReturnsLast |
| examples/str.c:200 | `memset(s->str + s->len, pad_char, s->cap)` | growing a string of length 3 to 5: 6 bytes written from offset 3 into a 6-byte buffer | fill `new_size - len` bytes | not executed | Str.ResizeOverrunAsWritten | Str.String.Resize |
| src/arena.c:38-39 | the new arena's cap is `a->cap * 2`, its buffer `malloc(a->cap)` | 100 bytes on a fresh arena: placed at offset 0 of a 64-byte buffer | `malloc(new_arena->cap)` | not executed | ArenaAlloc.OverrunAsWritten | ArenaAlloc.Chain.Alloc |
| src/io.c:143 | `assert(size >= ptr)` checks only the field's start | pack "i" into an 8-byte buffer: bytes 8..11 are written | `assert(size >= ptr + width)` | not executed | Io.PackOverrunAsWritten | Io.Pack |
| examples/str.c:89 | `memcpy(dst->str, src->str, src->len + 1)` with `src->str` NULL | cloning a string that never allocated (tests/runner.c:338-339, a split before any `##` line) | copy only when the source owns a buffer | not executed | Str.EmptyCloneReadsNull | Str.Clone |
| tests/runner.c:415 | `string_concat_with_cstr(fork_output, buffer)` appends the read buffer up to its first NUL | a child that writes "a\0b" against an expected output "a": the run passes | append the `read_amt` chars read | not executed; low: outputs rarely hold NUL | Runner.NulOutputTruncatedAsWritten | Runner.ReadOutput |
