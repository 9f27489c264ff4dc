/**
 * rpthread.c's `enqueue`, `dequeue` and `peek` exactly as written, over an
 * explicit heap of cells. `enqueue` never resets the new tail's `next`, and
 * `dequeue` clears `tail` only when the removed cell's `next` is NULL, not
 * when the size reaches zero. A cell that is dequeued and enqueued again
 * (what `schedule` does with the running thread) keeps a stale `next`, and
 * once the queue drains through it, `head` and `tail` are left pointing at
 * cells that are no longer queued.
 */
module RpQueueAsWritten {
  import opened QueueSpec

  /** A cell's address. */
  type Cell = nat

  /** A `ThreadNode *`: NULL or a cell. */
  datatype Link = Nil | To(cell: Cell)

  /** The queue header and every cell's `next` field; a cell missing from the map links to nothing, as `new_node` leaves it. */
  datatype Heap = Heap(head: Link, tail: Link, size: int, next: map<Cell, Link>)

  function Next(h: Heap, c: Cell): (r: Link)
  {
    LinkOf(h.next, c)
  }

  function LinkOf(next: map<Cell, Link>, c: Cell): (r: Link)
  {
    if c in next then next[c] else Nil
  }

  /** The cells met by following `next` from `from` for `n` steps, or fewer if a NULL comes first. */
  function Walk(next: map<Cell, Link>, from: Link, n: nat): (r: seq<Cell>)
    ensures |r| <= n
    ensures r != [] ==> from == To(r[0])
    decreases n
  {
    if n == 0 || from == Nil then [] else [from.cell] + Walk(next, LinkOf(next, from.cell), n - 1)
  }

  /** What the queue holds: the `size` cells reached from `head`, front first. */
  function Abs(h: Heap): (r: seq<Cell>)
  {
    Walk(h.next, h.head, if h.size < 0 then 0 else h.size)
  }

  /**
   * The header and the links agree: `size` cells, each once, are reached
   * from `head`; an empty queue has NULL head and tail; otherwise `tail` is
   * the last of them and links to NULL.
   */
  ghost predicate Sound(h: Heap)
  {
    && h.size >= 0 && |Abs(h)| == h.size && Distinct(Abs(h))
    && (h.size == 0 ==> h.head == Nil && h.tail == Nil)
    && (h.size > 0 ==> h.tail == To(Abs(h)[h.size - 1]) && Next(h, Abs(h)[h.size - 1]) == Nil)
  }

  /** `enqueue` as written: `c` becomes the tail and is counted, but its own `next` keeps whatever it held. */
  function Enqueue(h: Heap, c: Cell): (r: Heap)
    ensures r.tail == To(c) && r.size == h.size + 1
    ensures h.tail == Nil ==> r.head == To(c) && r.next == h.next
    ensures h.tail != To(c) ==> Next(r, c) == Next(h, c)
    ensures h.tail != Nil ==> r.head == h.head && Next(r, h.tail.cell) == To(c)
  {
    var linked := if h.tail == Nil then h.(head := To(c)) else h.(next := h.next[h.tail.cell := To(c)]);
    linked.(tail := To(c), size := linked.size + 1)
  }

  /**
   * `dequeue` as written: the front cell is returned and the count drops,
   * the new head is whatever the old head's `next` held, and `tail` is
   * cleared only if that was NULL. The source dereferences the head when the
   * count is not zero.
   */
  function Dequeue(h: Heap): (r: (Heap, Link))
    requires h.size != 0 ==> h.head.To?
    ensures h.size == 0 ==> r == (h, Nil)
    ensures h.size != 0 ==>
              r.1 == h.head && r.0.size == h.size - 1 && r.0.head == Next(h, h.head.cell)
              && r.0.next == h.next
              && (r.0.tail == Nil <==> Next(h, h.head.cell) == Nil || h.tail == Nil)
  {
    if h.size == 0 then (h, Nil)
    else
      var node := h.head.cell;
      var h1 := if Next(h, node) == Nil then h.(tail := Nil) else h;
      (h1.(head := Next(h, node), size := h1.size - 1), To(node))
  }

  /** `peek` as written: on a sound queue, the front cell, or NULL when it holds none. */
  function Peek(h: Heap): (r: Link)
    ensures Sound(h) ==> r == if Abs(h) == [] then Nil else To(Abs(h)[0])
  {
    if h.size == 0 then Nil else h.head
  }

  /**
   * Relinking the last of `n` distinct cells reached from `from` to `c`
   * extends the walk by `c`.
   */
  lemma {:induction false} WalkExtend(next: map<Cell, Link>, from: Link, n: nat, c: Cell)
    requires n >= 1 && |Walk(next, from, n)| == n && Distinct(Walk(next, from, n))
    ensures Walk(next[Walk(next, from, n)[n - 1] := To(c)], from, n + 1) == Walk(next, from, n) + [c]
    decreases n
  {
    var w := Walk(next, from, n);
    var t := w[n - 1];
    var next' := next[t := To(c)];
    var x := from.cell;
    if n == 1 {
      assert LinkOf(next', x) == To(c);
    } else {
      var rest := Walk(next, LinkOf(next, x), n - 1);
      assert w == [x] + rest;
      assert x != t by { assert w[0] != w[n - 1]; }
      assert LinkOf(next', x) == LinkOf(next, x);
      assert Distinct(rest) by {
        forall i, j | 0 <= i < j < |rest| ensures rest[i] != rest[j] {
          assert rest[i] == w[i + 1] && rest[j] == w[j + 1];
        }
      }
      assert rest[n - 2] == t;
      WalkExtend(next, LinkOf(next, x), n - 1, c);
    }
  }

  /**
   * While the cell being enqueued links to NULL (as `new_node` leaves a
   * cell) and is not queued, the as-written `enqueue` appends it and keeps
   * the queue sound. A cell taken off by `dequeue` still links to its old
   * successor (`DequeuedCellKeepsLink`), which is what breaks this.
   */
  lemma EnqueueAppends(h: Heap, c: Cell)
    requires Sound(h) && c !in Abs(h) && Next(h, c) == Nil
    ensures Sound(Enqueue(h, c)) && Abs(Enqueue(h, c)) == Abs(h) + [c]
  {
    var r := Enqueue(h, c);
    if h.tail == Nil {
      assert Abs(r) == [c];
    } else {
      WalkExtend(h.next, h.head, h.size, c);
      assert Abs(r) == Abs(h) + [c];
      DistinctAppend(Abs(h), c);
      assert Next(r, c) == Nil by { assert Abs(h)[h.size - 1] != c; }
    }
  }

  /** On a sound queue, the as-written `dequeue` returns the front cell, drops it, and keeps the queue sound. */
  lemma DequeueDropsFront(h: Heap)
    requires Sound(h) && h.size > 0
    ensures h.head.To?
    ensures Sound(Dequeue(h).0) && Dequeue(h).1 == To(Abs(h)[0]) && Abs(Dequeue(h).0) == Abs(h)[1..]
  {
    var w := Abs(h);
    var x := w[0];
    var rest := Walk(h.next, Next(h, x), h.size - 1);
    assert w == [x] + rest;
    assert Distinct(rest) by {
      forall i, j | 0 <= i < j < |rest| ensures rest[i] != rest[j] {
        assert rest[i] == w[i + 1] && rest[j] == w[j + 1];
      }
    }
    if h.size > 1 {
      assert Next(h, x) != Nil;
    }
  }

  /**
   * `dequeue` leaves the removed cell's `next` alone: taken from a queue of
   * two or more, it still links to the new front. Enqueued again it breaks
   * the requirement of `EnqueueAppends`.
   */
  lemma DequeuedCellKeepsLink(h: Heap)
    requires Sound(h) && h.size >= 2
    ensures Dequeue(h).1 == To(Abs(h)[0]) && Next(Dequeue(h).0, Abs(h)[0]) == To(Abs(h)[1])
  {
    DequeueDropsFront(h);
    assert Abs(h)[1..][0] == Abs(h)[1];
  }

  /**
   * Cells 1 and 2 are queued; 1 is dequeued (its `next` still names 2) and
   * enqueued again; the queue is drained (2, then 1); cell 3 is enqueued.
   * `peek` then returns cell 2, which is no longer in the queue, instead of 3.
   */
  lemma StaleNextLosesEnqueue()
    ensures
      var h1 := Enqueue(Enqueue(Heap(Nil, Nil, 0, map[]), 1), 2);
      var (h2, x) := Dequeue(h1);
      var h3 := Enqueue(h2, 1);
      var (h4, y) := Dequeue(h3);
      var (h5, z) := Dequeue(h4);
      var h6 := Enqueue(h5, 3);
      && x == To(1) && y == To(2) && z == To(1)
      && h5.size == 0 && h5.tail == To(1) && h5.head == To(2)
      && h6.size == 1 && Peek(h6) == To(2)
  {
  }
}
