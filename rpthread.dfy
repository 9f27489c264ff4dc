/**
 * The earlier single-level runtime (rpthread.c): a queue of `ThreadNode`
 * wrappers around thread control blocks, the scheduler's round-robin
 * rotation and the thread-id counter. Contexts, stacks, signals and timers
 * are not part of this model.
 */
module RpThread {
  import opened Config
  import opened QueueSpec

  /**
   * Thread states as rpthread.c uses them. READY, BLOCKED and FINISHED are
   * the header's 0, 1 and 2; SCHEDULED, the state of the main thread, is
   * named by rpthread.c but given a value by no header, so the model keeps
   * the states symbolic. The scheduler only ever asks whether a thread is
   * FINISHED.
   */
  datatype RunState = Ready | Blocked | Finished | Scheduled

  /** The thread control block of this variant: id, state and priority. The id is never reassigned. */
  class Tcb {
    const tid: uint8
    var threadState: RunState
    var threadPriority: int

    /** `new_tcb` of rpthread.c: a block with the given id, state and priority. */
    constructor (tid: uint8, threadState: RunState, threadPriority: int)
      ensures this.tid == tid && this.threadState == threadState
      ensures this.threadPriority == threadPriority
    {
      this.tid := tid;
      this.threadState := threadState;
      this.threadPriority := threadPriority;
    }
  }

  /** A queue cell holding one thread control block (`ThreadNode`). */
  class ThreadNode {
    const tcb: Tcb
    var next: ThreadNode?

    /** `new_node`: a cell for `tcb` that links to nothing. */
    constructor (tcb: Tcb)
      ensures this.tcb == tcb && next == null
    {
      this.tcb := tcb;
      next := null;
    }
  }

  /** A FIFO of cells linked through their `next` fields (`ThreadQueue`). */
  class ThreadQueue {
    var head: ThreadNode?
    var tail: ThreadNode?
    var size: int
    ghost var contents: seq<ThreadNode>

    /** The links spell out `contents`, front first, with `size` its length and no cell twice. */
    ghost predicate Valid()
      reads this, contents
    {
      && size == |contents|
      && (contents == [] ==> head == null && tail == null)
      && (contents != [] ==>
            head == contents[0] && tail == contents[|contents| - 1] && tail.next == null)
      && (forall i :: 0 <= i < |contents| - 1 ==> contents[i].next == contents[i + 1])
      && Distinct(contents)
    }

    /** `new_queue`: an empty queue. */
    constructor ()
      ensures Valid() && contents == []
      ensures head == null && tail == null && size == 0
    {
      head, tail, size := null, null, 0;
      contents := [];
    }

    /**
     * `enqueue`: append `node` at the tail. The source has no null check, so
     * `node` may not be null. Unlike the source, this definition also sets
     * `node.next` to null, as the later variants of the queue do; the code
     * as written is `RpQueueAsWritten.Enqueue`.
     */
    method Enqueue(node: ThreadNode)
      requires Valid() && node !in contents
      modifies this, {node, tail}`next
      ensures Valid()
      ensures contents == old(contents) + [node] && tail == node && node.next == null
      ensures size == old(size) + 1
    {
      if tail == null {
        head := node;
      } else {
        tail.next := node;
      }
      tail := node;
      node.next := null;
      size := size + 1;
      contents := contents + [node];
    }

    /** `dequeue`: take the front cell off the queue and return it, or return null if the queue is empty. */
    method Dequeue() returns (node: ThreadNode?)
      requires Valid()
      modifies this
      ensures Valid()
      ensures old(contents) == [] ==> node == null && unchanged(this)
      ensures old(contents) != [] ==>
                node == old(contents)[0] && contents == old(contents)[1..]
                && size == old(size) - 1
    {
      if size == 0 {
        return null;
      }
      node := head;
      if node.next == null {
        tail := null;
      }
      head := node.next;
      size := size - 1;
      contents := contents[1..];
    }

    /** `peek`: the front cell, or null if the queue is empty; nothing changes. */
    function Peek(): (node: ThreadNode?)
      requires Valid()
      reads this, contents
      ensures node == if contents == [] then null else contents[0]
    {
      if size == 0 then null else head
    }
  }

  /**
   * The scheduler (`scheduler_t`): the running thread's cell, the run queue,
   * and the counter that hands out thread ids. The ghost `threads` lists
   * the cell of every thread created so far, the main thread first, so that
   * the i-th one carries id i modulo 256 (`rpthread_t` is 8 bits wide). No
   * thread leaves (the FINISHED path is not modelled), so the line-up holds
   * exactly the cells of `threads`: it has as many cells, each once, and
   * each of them is in `threads`. The threads' control blocks are outside
   * `Repr`: scheduling and creating threads never change a thread's state
   * or priority.
   */
  class Scheduler {
    var running: ThreadNode?
    var tqueue: ThreadQueue
    var threadCounter: int
    ghost var threads: seq<ThreadNode>
    ghost var Repr: set<object>

    ghost predicate Valid()
      reads this, Repr
    {
      && this in Repr && tqueue in Repr && running in Repr
      && (forall n :: n in tqueue.contents ==> n in Repr)
      && tqueue.Valid()
      && running != null && running !in tqueue.contents
      && threadCounter == |threads| >= 1
      && (forall i :: 0 <= i < |threads| ==> threads[i].tcb.tid == ToUint8(i) && threads[i].tcb !in Repr)
      && |threads| == 1 + |tqueue.contents|
      && running in threads && (forall n :: n in tqueue.contents ==> n in threads)
    }

    /** The threads in the order round robin will run them: the running one, then the queue. */
    ghost function Lineup(): (s: seq<ThreadNode>)
      requires Valid()
      reads this, Repr
      ensures s != [] && s[0] == running
    {
      [running] + tqueue.contents
    }

    /**
     * `init_scheduler`: the main thread, with id 0 and state SCHEDULED, is
     * running, the run queue is empty and the next id to hand out is 1.
     */
    constructor ()
      ensures Valid() && fresh(Repr)
      ensures running.tcb.tid == 0 && running.tcb.threadState == Scheduled
      ensures running.tcb.threadPriority == 0 && running.next == null
      ensures tqueue.contents == [] && threadCounter == 1 && threads == [running]
    {
      var mainTcb := new Tcb(0, Scheduled, 0);
      var mainNode := new ThreadNode(mainTcb);
      running := mainNode;
      tqueue := new ThreadQueue();
      threadCounter := 1;
      threads := [mainNode];
      Repr := {this, tqueue, mainNode};
    }

    /**
     * The round-robin step of `schedule` for a thread that has not finished:
     * if others are waiting, the running thread goes to the back of the
     * queue and the front one runs; otherwise the running thread goes on.
     * The line-up turns by one place and the queue keeps its length.
     */
    method Schedule()
      requires Valid()
      requires running.tcb.threadState != Finished
      modifies Repr
      ensures Valid() && Repr == old(Repr)
      ensures Lineup() == RotateLeft(old(Lineup()))
      ensures tqueue == old(tqueue) && tqueue.size == old(tqueue.size)
      ensures threadCounter == old(threadCounter) && threads == old(threads)
      ensures old(tqueue.contents) == [] ==> running == old(running)
      ensures old(tqueue.contents) != [] ==>
                running == old(tqueue.contents)[0]
                && tqueue.contents == old(tqueue.contents)[1..] + [old(running)]
    {
      if tqueue.size > 0 {
        tqueue.Enqueue(running);
        running := tqueue.Dequeue();
        assert tqueue.contents == old(tqueue.contents)[1..] + [old(running)];
      }
    }

    /**
     * `rpthread_create` once the scheduler exists: a new control block with
     * the current counter as its id (truncated to 8 bits), state READY and
     * priority 0 is wrapped in a cell and appended to the run queue; the
     * counter goes up by one. It always reports 0.
     */
    method Create() returns (status: int)
      requires Valid()
      modifies Repr
      ensures Valid() && fresh(Repr - old(Repr))
      ensures status == 0
      ensures running == old(running) && tqueue == old(tqueue)
      ensures threadCounter == old(threadCounter) + 1
      ensures |tqueue.contents| == |old(tqueue.contents)| + 1
      ensures tqueue.contents[..|old(tqueue.contents)|] == old(tqueue.contents)
      ensures fresh(tqueue.contents[|old(tqueue.contents)|])
      ensures fresh(tqueue.contents[|old(tqueue.contents)|].tcb)
      ensures Created(tqueue.contents[|old(tqueue.contents)|], old(threadCounter))
      ensures threads == old(threads) + [tqueue.contents[|old(tqueue.contents)|]]
    {
      var tcb := new Tcb(ToUint8(threadCounter), Ready, 0);
      threadCounter := threadCounter + 1;
      var node := new ThreadNode(tcb);
      threads := threads + [node];
      ghost var before := [running] + tqueue.contents;
      tqueue.Enqueue(node);
      Repr := Repr + {node};
      status := 0;
      assert [running] + tqueue.contents == before + [node];
    }
  }

  /** The process-wide `scheduler` pointer, null until the first thread is created. It is not part of the scheduler's own state. */
  class Runtime {
    var scheduler: Scheduler?

    constructor ()
      ensures scheduler == null
    {
      scheduler := null;
    }

    /**
     * `rpthread_create`: set the scheduler up on first use (the main thread
     * takes id 0), then create the new thread. The first thread created
     * therefore gets id 1, and every later one the next id in turn.
     */
    method Create() returns (status: int)
      requires scheduler != null ==> scheduler.Valid() && this !in scheduler.Repr
      modifies this`scheduler, if scheduler == null then {} else scheduler.Repr
      ensures scheduler != null && scheduler.Valid() && this !in scheduler.Repr && status == 0
      ensures old(scheduler) == null ==>
                fresh(scheduler) && fresh(scheduler.Repr)
                && scheduler.running.tcb.tid == 0 && scheduler.running.tcb.threadState == Scheduled
                && |scheduler.tqueue.contents| == 1 && scheduler.threadCounter == 2
                && scheduler.threads == [scheduler.running, Last(scheduler.tqueue.contents)]
      ensures old(scheduler) != null ==>
                scheduler == old(scheduler) && fresh(scheduler.Repr - old(scheduler.Repr))
                && scheduler.running == old(scheduler.running)
                && scheduler.threadCounter == old(scheduler.threadCounter) + 1
                && |scheduler.tqueue.contents| == |old(scheduler.tqueue.contents)| + 1
                && scheduler.tqueue.contents[..|old(scheduler.tqueue.contents)|]
                   == old(scheduler.tqueue.contents)
                && scheduler.threads == old(scheduler.threads) + [Last(scheduler.tqueue.contents)]
      ensures Created(Last(scheduler.tqueue.contents), scheduler.threadCounter - 1)
    {
      if scheduler == null {
        scheduler := new Scheduler();
      }
      status := scheduler.Create();
    }
  }

  /** The last element of a non-empty sequence. */
  function Last<T>(s: seq<T>): (r: T)
    requires s != []
    ensures r in s
  {
    s[|s| - 1]
  }

  /**
   * `k` calls of `schedule` while no thread has finished: the line-up is
   * the original one turned `k` places, so the threads run in strict
   * line-up order, over and over (see `RoundRobinTurn`).
   */
  method RoundRobin(s: Scheduler, k: nat)
    requires s.Valid()
    requires forall n :: n in s.threads ==> n.tcb.threadState != Finished
    modifies s.Repr
    ensures s.Valid() && s.Repr == old(s.Repr) && s.threads == old(s.threads)
    ensures s.Lineup() == Rotations(old(s.Lineup()), k)
  {
    ghost var start := s.Lineup();
    var i := 0;
    while i < k
      invariant 0 <= i <= k
      invariant s.Valid() && s.Repr == old(s.Repr) && s.threads == old(s.threads)
      invariant forall n :: n in s.threads ==> n.tcb.threadState != Finished
      invariant s.Lineup() == Rotations(start, i)
    {
      s.Schedule();
      i := i + 1;
    }
  }

  /**
   * Two threads are created and `schedule` runs three times: each of the
   * three threads has run once and the main thread runs again.
   */
  method CreateTwoThenCycle() returns (rt: Runtime)
    ensures rt.scheduler != null && rt.scheduler.Valid()
    ensures |rt.scheduler.Lineup()| == 3 && rt.scheduler.running.tcb.tid == 0
  {
    rt := new Runtime();
    var status := rt.Create();
    status := rt.Create();
    var s := rt.scheduler;
    assert s.threads == [s.running] + s.tqueue.contents;
    ghost var start := s.Lineup();
    RoundRobin(s, 3);
    FullCycle(start);
  }

  /**
   * While at most 256 threads (the main one included) exist, no two threads
   * of the line-up, the running one or a queued one, share an id.
   */
  lemma UniqueTids(s: Scheduler)
    requires s.Valid() && s.threadCounter <= 256
    ensures forall i, j :: 0 <= i < j < |s.Lineup()| ==>
              s.Lineup()[i].tcb.tid != s.Lineup()[j].tcb.tid
  {
    var lineup := s.Lineup();
    forall i, j | 0 <= i < j < |lineup| ensures lineup[i].tcb.tid != lineup[j].tcb.tid {
      assert lineup[i] != lineup[j] by {
        if i == 0 {
          assert lineup[j] in s.tqueue.contents;
        } else {
          assert lineup[i] == s.tqueue.contents[i - 1] && lineup[j] == s.tqueue.contents[j - 1];
        }
      }
      assert lineup[i] in s.threads && lineup[j] in s.threads;
      CreatedApart(s.threads, lineup[i], lineup[j]);
    }
  }

  /** Two different cells among the first 256 created carry different ids. */
  lemma CreatedApart(threads: seq<ThreadNode>, a: ThreadNode, b: ThreadNode)
    requires |threads| <= 256 && forall i :: 0 <= i < |threads| ==> threads[i].tcb.tid == ToUint8(i)
    requires a in threads && b in threads && a != b
    ensures a.tcb.tid != b.tcb.tid
  {
    var x :| 0 <= x < |threads| && threads[x] == a;
    var y :| 0 <= y < |threads| && threads[y] == b;
    assert ToUint8(x) != ToUint8(y);
  }

  /** The 256th thread created gets id 0 again, the main thread's id: the 8-bit id wraps around. */
  lemma TidWrapsAround(s: Scheduler)
    requires s.Valid() && s.threadCounter > 256
    ensures s.threads[256].tcb.tid == s.threads[0].tcb.tid
  {
  }

  /**
   * The sequence that breaks the queue as written (see `RpQueueAsWritten`),
   * replayed on the queue whose enqueue clears `next`: two cells go in, the
   * first is taken off and put back (as `schedule` does with the running
   * thread), the queue is drained, and a third cell goes in. The front of
   * the queue is now that third cell.
   */
  method RequeueThenDrain() returns (front: ThreadNode?, c: ThreadNode)
    ensures front == c
  {
    var t := new Tcb(0, Ready, 0);
    var a := new ThreadNode(t);
    var b := new ThreadNode(t);
    c := new ThreadNode(t);
    var q := new ThreadQueue();
    q.Enqueue(a);
    q.Enqueue(b);
    var x := q.Dequeue();
    q.Enqueue(a);
    x := q.Dequeue();
    x := q.Dequeue();
    q.Enqueue(c);
    front := q.Peek();
  }

  /** `node` is an unlinked cell for a READY thread at priority 0 whose id is `counter` truncated to 8 bits. */
  ghost predicate Created(node: ThreadNode, counter: int)
    reads node, node.tcb
  {
    && node.tcb.tid == ToUint8(counter)
    && node.tcb.threadState == Ready && node.tcb.threadPriority == 0
    && node.next == null
  }
}
