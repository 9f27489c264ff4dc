# Thread queues of a user-level thread runtime, in Dafny

This project models the core data structure of a user-level ("green")
thread library: the intrusive FIFO queue of thread control blocks (TCBs)
that the scheduler runs threads from. It also models the small amount of
bookkeeping around that queue. The repository has three variants of the queue,
and all three are modelled:

- `tcb.c` (current) and `threadqueue.c` (most complete) link `tcb_t` blocks
  through their own `next` field. `new_queue`, `enqueue` and `dequeue` are the
  same code in both files. They are modelled once, in module `TcbQueue`:
  class `Queue` and class `Tcb`. `threadqueue.c` adds `peek` and `remove_tcb`.
  `tcb.c` adds `new_tcb` and `thread_wrapper`.
- `rpthread.c` (earlier) links `ThreadNode` cells that wrap a TCB. This file
  also holds the scheduler's round-robin rotation (`schedule`) and the
  thread-id counter (`init_scheduler`, `rpthread_create`). These are modelled
  in module `RpThread`. Its `ThreadQueue.Enqueue` is the corrected enqueue,
  which also clears the cell's `next` (see Findings). Module
  `RpQueueAsWritten` models rpthread.c's `enqueue`, `dequeue` and `peek` as
  written, over an explicit heap value.

Each queue is a Dafny class. Its fields are `head`, `tail` and `size`, plus
a ghost `contents` sequence. `Valid()` says that the `next` links spell out
`contents` in order, that the tail links to null, that `size` is the length,
and that no block occurs twice. Every operation is specified as a
transformation of `contents`:

- enqueue appends;
- dequeue drops the front;
- `remove_tcb` is `Without`, which takes one element out.

The pure sequence functions and their lemmas are in module `QueueSpec`. The
header constants the model uses are in module `Config`: `TIMESLICE` 5,
READY = 0, and the 8-bit `rpthread_t`.

A thread's entry function is modelled as a pure function from its argument
(`void *`, modelled as `Config.Ptr`) to its result.

Notes on following the code:

- `rpthread_create` always returns 0. It never writes the new id through its
  `thread` argument, so the model returns only the status.
- Thread ids are 8-bit. The model truncates the counter to 8 bits, as the C
  assignment to `rpthread_t` does, so the 256th created thread gets id 0 again
  (`RpThread.TidWrapsAround`). Ids are therefore unique only among the
  first 256 threads, the main one included (rpthread.c:113 assigns the
  counter to the 8-bit `rpthread_t`).
- When `remove_tcb` removes the head, it leaves that block's `next` pointing at
  the new head, because it simply calls `dequeue`. Only a block removed from
  the middle gets its `next` cleared.

## Model

| member | source | states |
|---|---|---|
| `QueueSpec.Without` | threadqueue.c:42-74 | removing a block shortens the queue by one exactly when the block was queued, and adds no block |
| `QueueSpec.WithoutAbsent` | threadqueue.c:62-73 | removing a block that is not queued leaves the queue as it was |
| `QueueSpec.WithoutSplit` | threadqueue.c:62-73 | removing a block unlinks just that block and keeps the blocks before and after it in order |
| `QueueSpec.WithoutDistinct` | threadqueue.c:42-74 | after a removal from a queue without duplicates, the queue holds exactly the other members, still without duplicates |
| `QueueSpec.RotateLeft` | rpthread.c:154-157 | one round-robin step, moving the front to the back, keeps the number of threads |
| `QueueSpec.RotateLeftPermutes` | rpthread.c:154-157 | one round-robin step keeps every thread: the line-up after it is a permutation of the one before |
| `QueueSpec.Rotations` | rpthread.c:154-157 | k round-robin steps keep the number of threads |
| `QueueSpec.RotationsAdd` | rpthread.c:154-157 | a steps followed by b steps are a+b steps |
| `QueueSpec.RotationsPrefix` | rpthread.c:154-157 | within one round, k steps move the first k threads, in order, behind the others |
| `QueueSpec.FullCycle` | rpthread.c:154-157 | after as many steps as there are threads, the line-up is back in its original order |
| `QueueSpec.RotationsClosedForm` | rpthread.c:154-157 | after q full rounds and r more steps, the line-up is the original one cut at position r |
| `QueueSpec.RoundRobinTurn` | rpthread.c:154-157 | on a line-up of n threads, after k rotation steps the front is the thread k mod n places along the original line-up; `RpThread.RoundRobin` ties k calls of `schedule` to k rotation steps |
| `TcbQueue.Tcb.constructor` | tcb.c:48-67 | a new block has the given id, entry function and argument; priority 0, state READY, retval NULL, `last_run` 0, a full `TIMESLICE`; `next` null; and a fresh empty `joined` queue |
| `TcbQueue.Tcb.ThreadWrapper` | tcb.c:86-88 | the entry function's result on the block's argument is stored in `retval`, and no other field changes |
| `TcbQueue.Queue.constructor` | tcb.c:9-15 | a new queue is empty: head and tail null, size 0 |
| `TcbQueue.Queue.Enqueue` | tcb.c:17-31 | a null block changes nothing; otherwise the block is appended as the new tail, its `next` is cleared, size grows by one, and earlier blocks keep their order |
| `TcbQueue.Queue.Dequeue` | tcb.c:33-46 | an empty queue gives null and is unchanged; otherwise the front block is returned, the rest stay in order, size drops by one, and tail becomes null exactly when the last block left |
| `TcbQueue.Queue.Peek` | threadqueue.c:76-81 | the front block, or null for an empty queue, read without change |
| `TcbQueue.Queue.RemoveTcb` | threadqueue.c:42-74 | the queue loses exactly `tcb` (nothing if it is null or absent) and size drops accordingly; at the front this is `dequeue`; a block removed from behind the front gets a null `next`; a non-null block needs a non-empty queue |
| `TcbQueue.Queue.RemoveTail` | threadqueue.c:48-59 | removing the last of at least two blocks makes its predecessor the tail with a null `next`, keeps the head, and shrinks size by one |
| `TcbQueue.Queue.RemoveInner` | threadqueue.c:62-73 | a block strictly inside the queue is unlinked and its `next` cleared, head and tail stay; a block that is absent changes nothing |
| `TcbQueue.Queue.Unlink` | threadqueue.c:65-69 | the block after `prev` leaves the queue, its `next` is cleared, head and tail stay, and size drops by one |
| `TcbQueue.ChainWithout` | threadqueue.c:66-67 | relinking the predecessor of position k to its successor leaves a chain that spells out the queue without position k |
| `TcbQueue.FifoRoundTrip` | tcb.c:17-46 | distinct blocks enqueued onto a new queue are dequeued in the same order, and the queue ends up empty |
| `RpThread.Tcb.constructor` | rpthread.c:53-59 | a block with the given id, state and priority |
| `RpThread.ThreadNode.constructor` | rpthread.c:45-50 | a cell that wraps the given block and links to nothing |
| `RpThread.ThreadQueue.constructor` | rpthread.c:5-11 | a new queue is empty |
| `RpThread.ThreadQueue.Enqueue` | rpthread.c:13-22 | a non-null cell that is not yet queued is appended as the new tail, and size grows by one; corrected to also clear the cell's `next` (see Findings) |
| `RpThread.ThreadQueue.Dequeue` | rpthread.c:24-36 | an empty queue gives null and is unchanged; otherwise the front cell is returned, the rest stay in order, and size drops by one |
| `RpThread.ThreadQueue.Peek` | rpthread.c:38-43 | the front cell, or null for an empty queue, read without change |
| `RpThread.Scheduler.constructor` | rpthread.c:91-98 | the main thread (id 0, SCHEDULED) is running, the run queue is empty, the counter starts at 1, and the main thread is the only one created so far |
| `RpThread.Scheduler.Lineup` | rpthread.c:144-157 | the round-robin order starts with the running thread |
| `RpThread.Scheduler.Schedule` | rpthread.c:154-157 | for a thread that has not finished: if threads are waiting, the running thread moves to the tail and the former head runs; otherwise the running thread goes on; the line-up rotates by one and the queue length stays the same; no thread's control block (state, priority) changes |
| `RpThread.Scheduler.Create` | rpthread.c:113-124 | the new thread gets the current counter as its id (truncated to 8 bits), is READY with priority 0, and is appended to the run queue; the counter goes up by one; the call returns 0; the line-up still holds exactly the threads created, each once; no existing thread's control block changes |
| `RpThread.Runtime.constructor` | rpthread.c:66 | before any thread is created the process-wide scheduler pointer is NULL |
| `RpThread.Runtime.Create` | rpthread.c:108-125 | the scheduler is set up on first use (a fresh scheduler whose main thread is SCHEDULED with id 0), so the first thread created gets id 1; later calls append the next id in turn; the created threads are logged in order |
| `RpThread.RoundRobin` | rpthread.c:154-157 | k calls of `schedule` while no thread has finished turn the line-up k places: threads run in strict line-up order, over and over |
| `RpThread.CreateTwoThenCycle` | rpthread.c:108-157 | after creating two threads and scheduling three times, the main thread (id 0) runs again |
| `RpThread.UniqueTids` | rpthread.c:113-121 | while at most 256 threads exist, the main one included, no two threads the scheduler holds (the running one and the queued ones) have the same id |
| `RpThread.CreatedApart` | rpthread.c:113-121 | two different threads among the first 256 created get different ids |
| `RpThread.TidWrapsAround` | rpthread.c:113-121 | the 8-bit id wraps, so the 256th created thread gets the main thread's id 0 |
| `RpThread.RequeueThenDrain` | rpthread.c:13-36 | with the corrected enqueue, re-enqueueing a dequeued cell and then draining the queue leaves it sound: the next enqueued cell is the front |
| `RpQueueAsWritten.Enqueue` | rpthread.c:13-22 | as written: the cell becomes the tail and is counted (and the head too when the tail was NULL), but its own `next` keeps whatever it held |
| `RpQueueAsWritten.Dequeue` | rpthread.c:24-36 | as written: the new head is the old head's `next`, and tail is cleared only when that `next` is NULL, not when the count reaches zero |
| `RpQueueAsWritten.Peek` | rpthread.c:38-43 | on a sound queue (the `size` cells reached from `head` are distinct and end at `tail`, which links to NULL): the first queued cell, or NULL when none is queued |
| `RpQueueAsWritten.EnqueueAppends` | rpthread.c:13-22 | on a sound queue, enqueueing a cell that is not queued and links to NULL (as `new_node` leaves it, rpthread.c:48) appends it and keeps the queue sound |
| `RpQueueAsWritten.DequeueDropsFront` | rpthread.c:24-36 | on a sound non-empty queue, `dequeue` returns the first queued cell, drops it, and keeps the queue sound |
| `RpQueueAsWritten.DequeuedCellKeepsLink` | rpthread.c:24-36 | a cell dequeued from a queue of two or more still links to the new first cell, so enqueueing it again falls outside `EnqueueAppends`: this is where the finding's defect starts |
| `RpQueueAsWritten.StaleNextLosesEnqueue` | rpthread.c:13-43 | the input of the finding below: after it, `peek` returns a cell that is no longer queued |

## Left out

- Saved contexts and stacks are not modelled. This covers `getcontext`/`makecontext`/`swapcontext`, `setup_tcb_context`, the `uctx` allocation in `new_tcb`, and the scheduler and exit contexts of `init_scheduler`. These are foreign calls with no behaviour that can be stated. For the same reason, the entry function and argument given to `rpthread_create` are not kept: they only go into the saved context.
- Signals and the timer are not modelled: `signal`, `setitimer` and `handle_timeout`. This is asynchronous preemption. It only decides *when* `schedule` runs.
- Memory release is not modelled: `free_tcb` in both files, and the `free` calls in `schedule`.
- RpThread.Scheduler.Schedule: runs on the corrected enqueue, which clears the re-queued cell's `next`, so its `ensures Valid()` (the tail links to NULL) is not a fact about rpthread.c:155, where the re-queued cell keeps the `next` it had when it was dequeued. The line-up result still carries over to the code as written: rpthread.c's only `dequeue` (line 156) comes straight after an `enqueue`, so the queue never drains and the stale link is never followed.
- RpThread.Scheduler.Schedule: requires that the running thread is not FINISHED. The source's FINISHED path is unsound, so it is not a behaviour to prove:
  - it frees the running block, then enqueues the now-NULL `running` into an `enqueue` that has no NULL check;
  - this inflates the size and detaches the old tail;
  - it then passes the freed block's context to `swapcontext`.
- `handle_exit`, the empty stubs `rpthread_yield`/`rpthread_exit`/`rpthread_join`, and the mutex functions are not modelled. The stubs and mutex functions have no code, and their names are only declared in rpthread.h. For the same reason, the multi-level feedback policy, timeslice accounting and the `joined` wake-up are not modelled. The only part of `joined` in the model is its creation in `new_tcb`.
- `new_tcb` and `new_queue` in threadqueue.c are the same code as in tcb.c, apart from the `uctx` allocation. They are modelled by the `TcbQueue` members that cite tcb.c.
- The scheduler type, `SCHEDULED` and `SSIZE` are used by rpthread.c, but no header shown defines them. The counter is modelled as an unbounded integer. The main thread's state is a symbolic `Scheduled`.
- The C `int` size fields are modelled as unbounded integers. No queue can hold 2^31 blocks in practice.
- RpThread.Tcb.constructor: the priority is an unbounded integer. The type of rpthread.c's TCB priority field is not given by any shown header.
- RpThread.Runtime.Create: requires that the runtime object is not part of the scheduler's own state. In C the static `scheduler` pointer is separate from the structure it points to by construction.
- `printf` diagnostics, the demo `funcA`/`funcB`/`main`, the benchmarks and the build script are not modelled.

## Findings

| source | as written | input that shows it | evidently intended | confidence | as-written member | corrected member |
|---|---|---|---|---|---|---|
| rpthread.c:13-36 | `enqueue` never resets the new tail's `next`, and `dequeue` does not clear it either. `dequeue` clears `tail` only when the removed cell's `next` is NULL. `schedule` (rpthread.c:155-156) puts back a cell it dequeued earlier, so that cell keeps a stale `next`. Once the queue drains through such a cell, `head` and `tail` point at cells no longer queued. | enqueue cells 1 and 2; dequeue (returns 1, whose `next` is still 2); enqueue 1; dequeue twice (2, then 1); enqueue 3; `peek` returns 2 instead of 3 | `enqueue` sets `node->next = NULL`, as the later variants do (tcb.c:29, threadqueue.c:24) | high; not executed | `RpQueueAsWritten.StaleNextLosesEnqueue` | `RpThread.ThreadQueue.Enqueue` |
