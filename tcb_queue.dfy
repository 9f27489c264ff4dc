/**
 * Thread control blocks and the intrusive FIFO queue that links them
 * (tcb.h, tcb.c and threadqueue.c). A queue owns no nodes: it only threads
 * the `next` fields of the blocks it holds. Its abstract value is the ghost
 * sequence `contents`, front first.
 */
module TcbQueue {
  import opened Config
  import opened QueueSpec

  /** A thread's entry function (`void *(*)(void *)`), seen only through the value it returns. */
  type Entry = Ptr -> Ptr

  /** A thread control block (`tcb_t`). The saved context is not part of this model. */
  class Tcb {
    var tid: uint8
    var priority: uint8     // 0 is the highest
    var state: uint8        // READY (0), BLOCKED (1) or FINISHED (2)
    var lastRun: int        // clock reading of the last dispatch
    var timeslice: int      // budget left at the current priority
    var funcPtr: Entry
    var args: Ptr
    var retval: Ptr
    var joined: Queue       // threads waiting for this one to finish
    var next: Tcb?          // intrusive link of whichever queue holds this block

    /** `new_tcb`: a ready thread at the highest priority with a full timeslice, in no queue. */
    constructor (tid: uint8, funcPtr: Entry, args: Ptr)
      ensures this.tid == tid && this.funcPtr == funcPtr && this.args == args
      ensures priority == 0 && state == READY && retval == Null
      ensures lastRun == 0 && timeslice == TIMESLICE
      ensures next == null
      ensures fresh(joined) && joined.Valid() && joined.contents == []
    {
      this.tid := tid;
      priority := 0;
      state := READY;
      lastRun := 0;
      timeslice := TIMESLICE;
      this.funcPtr := funcPtr;
      this.args := args;
      retval := Null;
      joined := new Queue();
      next := null;
    }

    /** `thread_wrapper`: run the entry function on the argument and keep what it returns. */
    method ThreadWrapper()
      modifies this`retval
      ensures retval == funcPtr(args)
    {
      retval := funcPtr(args);
    }
  }

  /** A FIFO of thread control blocks linked through their `next` fields (`queue_t`). */
  class Queue {
    var head: Tcb?
    var tail: Tcb?
    var size: int
    ghost var contents: seq<Tcb>

    /**
     * The links spell out `contents`: `head` and `tail` are its ends (null when
     * it is empty), each block's `next` is its successor, the tail's `next` is
     * null, `size` is its length and no block occurs twice.
     */
    ghost predicate Valid()
      reads this, contents
    {
      && size == |contents|
      && (contents == [] ==> head == null && tail == null)
      && (contents != [] ==>
            head == contents[0] && tail == contents[|contents| - 1] && tail.next == null)
      && (forall i :: 0 <= i < |contents| - 1 ==> contents[i].next == contents[i + 1])
      && Distinct(contents)
    }

    /** `new_queue`: an empty queue. */
    constructor ()
      ensures Valid() && contents == []
      ensures head == null && tail == null && size == 0
    {
      head, tail, size := null, null, 0;
      contents := [];
    }

    /** `enqueue`: put `node` at the end of the queue; a null node is ignored. */
    method Enqueue(node: Tcb?)
      requires Valid()
      requires node != null ==> node !in contents
      modifies this, {node, tail}`next
      ensures Valid()
      ensures node == null ==> unchanged(this)
      ensures node != null ==>
                contents == old(contents) + [node] && tail == node && node.next == null
                && size == old(size) + 1
    {
      if node == null {
        return;
      }
      if tail == null {
        head := node;
      } else {
        tail.next := node;
      }
      tail := node;
      node.next := null;
      size := size + 1;
      contents := contents + [node];
    }

    /** `dequeue`: take the front block off the queue and return it, or return null if the queue is empty. */
    method Dequeue() returns (node: Tcb?)
      requires Valid()
      modifies this
      ensures Valid()
      ensures old(contents) == [] ==> node == null && unchanged(this)
      ensures old(contents) != [] ==>
                node == old(contents)[0] && contents == old(contents)[1..]
                && size == old(size) - 1
                && (tail == null <==> |old(contents)| == 1)
    {
      if size == 0 {
        return null;
      }
      node := head;
      if node.next == null {
        tail := null;
      }
      head := node.next;
      size := size - 1;
      contents := contents[1..];
    }

    /** `peek`: the front block, or null if the queue is empty; nothing changes. */
    function Peek(): (node: Tcb?)
      requires Valid()
      reads this, contents
      ensures node == if contents == [] then null else contents[0]
    {
      if size == 0 then null else head
    }

    /**
     * `remove_tcb`: take `tcb` out of the queue wherever it stands. At the
     * front it is exactly `Dequeue`; at the back its predecessor becomes the
     * tail; in the middle it is unlinked and its `next` cleared. A null or
     * absent block changes nothing. The source dereferences the head when
     * `tcb` is not null, so that case needs a non-empty queue.
     */
    method RemoveTcb(tcb: Tcb?)
      requires Valid()
      requires tcb != null ==> contents != []
      modifies this, contents`next
      ensures Valid()
      ensures tcb == null || tcb !in old(contents) ==>
                contents == old(contents) && head == old(head) && tail == old(tail)
                && size == old(size)
      ensures tcb != null && tcb in old(contents) ==>
                contents == Without(old(contents), tcb) && size == old(size) - 1
      ensures old(contents) != [] && tcb == old(contents)[0] ==>
                contents == old(contents)[1..] && tcb.next == old(tcb.next)
      ensures tcb != null && tcb in old(contents)[1..] ==> tcb.next == null
    {
      if tcb == head {
        var _ := Dequeue();
      } else if tcb == tail {
        ghost var c := contents;
        assert c == c[..|c| - 1] + [tcb] + [];
        assert tcb !in c[..|c| - 1];
        WithoutSplit(c[..|c| - 1], tcb, []);
        RemoveTail();
      } else {
        RemoveInner(tcb);
      }
    }

    /** The tail branch of `remove_tcb`: walk to the last block and make its predecessor the tail. */
    method RemoveTail()
      requires Valid() && |contents| >= 2
      modifies this, contents`next
      ensures Valid()
      ensures contents == old(contents)[..|old(contents)| - 1] && size == old(size) - 1
      ensures tail == old(contents)[|old(contents)| - 2] && head == old(head)
      ensures old(tail).next == null
    {
      var prev: Tcb? := null;
      var curr: Tcb := head;
      ghost var k := 0;
      while curr.next != null
        invariant 0 <= k < |contents|
        invariant curr == contents[k]
        invariant k == 0 ==> prev == null
        invariant k > 0 ==> prev == contents[k - 1]
        invariant curr.next == if k < |contents| - 1 then contents[k + 1] else null
        decreases |contents| - k
      {
        prev := curr;
        curr := curr.next;
        k := k + 1;
      }
      prev.next := null;
      tail := prev;
      size := size - 1;
      contents := contents[..k];
    }

    /**
     * The middle branch of `remove_tcb`: scan from the second block; if `tcb`
     * is found, link its predecessor to its successor and clear its `next`.
     */
    method RemoveInner(tcb: Tcb?)
      requires Valid() && contents != []
      requires tcb != head && tcb != tail
      modifies this, contents`next
      ensures Valid()
      ensures head == old(head) && tail == old(tail)
      ensures tcb == null || tcb !in old(contents) ==>
                contents == old(contents) && size == old(size)
      ensures tcb != null && tcb in old(contents) ==>
                contents == Without(old(contents), tcb) && size == old(size) - 1
                && tcb.next == null
    {
      var prev: Tcb := head;
      var curr: Tcb? := head.next;
      ghost var k := 1;
      while curr != null && curr != tcb
        invariant 1 <= k <= |contents|
        invariant prev == contents[k - 1]
        invariant k < |contents| ==> curr == contents[k]
        invariant k == |contents| ==> curr == null
        invariant tcb !in contents[..k]
        decreases |contents| - k
      {
        prev := curr;
        curr := curr.next;
        k := k + 1;
      }
      if curr == null {
        assert contents[..k] == contents;
        return;
      }
      // curr == tcb, strictly between head and tail
      ghost var c := contents;
      assert k < |c| - 1;
      WithoutSplit(c[..k], tcb, c[k + 1..]);
      assert c == c[..k] + [tcb] + c[k + 1..];
      Unlink(prev, k);
    }

    /** Unlink the block after `prev`, at position `k` strictly inside the queue, and clear its `next`. */
    method Unlink(prev: Tcb, ghost k: int)
      requires Valid() && 1 <= k < |contents| - 1 && prev == contents[k - 1]
      modifies this, contents`next
      ensures Valid()
      ensures contents == old(contents[..k] + contents[k + 1..]) && size == old(size) - 1
      ensures head == old(head) && tail == old(tail) && old(contents[k]).next == null
    {
      ghost var c := contents;
      var curr := prev.next;
      ChainAround(c, k);
      WithoutDistinct(c, curr);
      WithoutSplit(c[..k], curr, c[k + 1..]);
      assert c == c[..k] + [curr] + c[k + 1..];
      prev.next := curr.next;
      curr.next := null;
      size := size - 1;
      contents := c[..k] + c[k + 1..];
      assert forall i :: 0 <= i < |c| - 1 && i != k - 1 && i != k ==> c[i].next == c[i + 1];
      ChainWithout(c, k, contents);
    }
  }

  /** In a valid chain, no block other than the neighbours `c[k - 1]` and `c[k]` of position `k` is either of them. */
  lemma ChainAround(c: seq<Tcb>, k: int)
    requires Distinct(c) && 1 <= k < |c| - 1
    ensures forall i :: 0 <= i < |c| && i != k - 1 ==> c[i] != c[k - 1]
    ensures forall i :: 0 <= i < |c| && i != k ==> c[i] != c[k]
  {
  }

  /**
   * Unlinking position `k`: if every block of `c` but `c[k - 1]` and `c[k]`
   * still points at its successor and `c[k - 1]` now points at `c[k + 1]`,
   * the links spell out `c` without position `k`.
   */
  lemma ChainWithout(c: seq<Tcb>, k: int, r: seq<Tcb>)
    requires 1 <= k < |c| - 1 && r == c[..k] + c[k + 1..]
    requires forall i :: 0 <= i < |c| - 1 && i != k - 1 && i != k ==> c[i].next == c[i + 1]
    requires c[k - 1].next == c[k + 1]
    ensures forall i :: 0 <= i < |r| - 1 ==> r[i].next == r[i + 1]
  {
  }

  /**
   * FIFO order: enqueueing distinct blocks onto a fresh queue and dequeueing
   * as many times hands them back in the order they went in and leaves the
   * queue empty.
   */
  method FifoRoundTrip(nodes: seq<Tcb>) returns (q: Queue, out: seq<Tcb>)
    requires Distinct(nodes)
    modifies nodes`next
    ensures fresh(q) && q.Valid() && q.contents == [] && q.size == 0
    ensures out == nodes
  {
    q := new Queue();
    var i := 0;
    while i < |nodes|
      invariant 0 <= i <= |nodes|
      invariant q.Valid() && q.contents == nodes[..i]
    {
      assert nodes[i] !in nodes[..i];
      q.Enqueue(nodes[i]);
      assert nodes[..i + 1] == nodes[..i] + [nodes[i]];
      i := i + 1;
    }
    out := [];
    while |out| < |nodes|
      invariant |out| <= |nodes|
      invariant q.Valid() && q.contents == nodes[|out|..] && out == nodes[..|out|]
    {
      var node := q.Dequeue();
      out := out + [node];
    }
  }
}
