/**
 The flood fill's frontier: a growable array of points read from `start` and
 written at `end` (`PointQueue`, `pq_create`, `pq_push`, `pq_pop` in
 src/Bitmap.cpp). Popped slots are never reused; when `end` reaches
 `capacity` the array is copied into one twice as large.
 */
module PointQueues {
  import opened Pixels

  /** Capacity of a fresh queue. */
  const InitialCapacity: int := 1024

  /**
   `data` holds the slots written so far, `data[i]` being slot i of the C array; the
   slots from `end` up to `capacity` are allocated but unwritten, so they are not
   represented.
   */
  datatype PointQueue = PointQueue(size: int, capacity: int, start: int, end: int, data: seq<Point>)

  /** The representation invariant every operation keeps. */
  predicate Valid(q: PointQueue) {
    && 0 <= q.start <= q.end <= q.capacity
    && q.size == q.end - q.start
    && |q.data| == q.end
    && 0 < q.capacity
  }

  /** The points waiting to be popped, oldest first. */
  function Contents(q: PointQueue): seq<Point>
    requires Valid(q)
  {
    q.data[q.start..]
  }

  /** Everything ever popped, oldest first: popped slots are never reused. */
  function Pops(q: PointQueue): seq<Point>
    requires Valid(q)
  {
    q.data[..q.start]
  }

  /** `pq_create`: an empty queue with room for 1024 points, nothing pushed or popped yet. */
  method Create() returns (q: PointQueue)
    ensures Valid(q) && q.capacity == InitialCapacity
    ensures q.size == 0 && Contents(q) == [] && Pops(q) == []
  {
    q := PointQueue(0, InitialCapacity, 0, 0, []);
  }

  /**
   `pq_push`: append p, first doubling the capacity if the array is full; the copy into
   the larger array keeps every stored slot.
   */
  function Push(q: PointQueue, p: Point): (r: PointQueue)
    requires Valid(q)
    ensures Valid(r)
    ensures Contents(r) == Contents(q) + [p]
    ensures r.capacity == if q.end == q.capacity then 2 * q.capacity else q.capacity
    ensures r.start == q.start && r.end == q.end + 1
    ensures r.data == q.data + [p]
    ensures Pops(r) == Pops(q)
  {
    var grown := if q.end == q.capacity then q.(capacity := 2 * q.capacity) else q;
    var r := grown.(data := grown.data + [p], size := grown.size + 1, end := grown.end + 1);
    assert r.data[..q.start] == q.data[..q.start];
    r
  }

  /** What `pq_pop` reports: success, the value left in `*p`, and the queue afterwards. */
  datatype Popped = Popped(ok: bool, point: Point, queue: PointQueue)

  /** `pq_pop` with `*p` holding `p` on entry: take the oldest point, or fail on an empty queue. */
  function Pop(q: PointQueue, p: Point): (r: Popped)
    requires Valid(q)
    ensures Valid(r.queue)
    ensures r.ok <==> |Contents(q)| > 0
    ensures !r.ok ==> r.point == p && r.queue == q
    ensures r.ok ==> r.point == Contents(q)[0] && Contents(r.queue) == Contents(q)[1..]
    ensures r.ok ==> Pops(r.queue) == Pops(q) + [r.point]
    ensures r.queue.data == q.data && r.queue.capacity == q.capacity
  {
    if q.size <= 0 then Popped(false, p, q)
    else
      var r := Popped(true, q.data[q.start], q.(start := q.start + 1, size := q.size - 1));
      assert q.data[..q.start + 1] == q.data[..q.start] + [q.data[q.start]];
      r
  }

  /** A client's sequence of queue calls. */
  datatype Op = PushOp(p: Point) | PopOp

  /** The points the pushes of ops hand to the queue, in call order. */
  function Pushed(ops: seq<Op>): seq<Point> {
    if ops == [] then []
    else (if ops[0].PushOp? then [ops[0].p] else []) + Pushed(ops[1..])
  }

  /** The queue after a run of calls, and the points its successful pops returned, in order. */
  datatype Trace = Trace(queue: PointQueue, popped: seq<Point>)

  /** Performs ops on q. */
  function Run(q: PointQueue, ops: seq<Op>): Trace
    requires Valid(q)
    decreases |ops|
  {
    if ops == [] then Trace(q, [])
    else if ops[0].PushOp? then Run(Push(q, ops[0].p), ops[1..])
    else
      var r := Pop(q, Point(0, 0));
      var t := Run(r.queue, ops[1..]);
      Trace(t.queue, (if r.ok then [r.point] else []) + t.popped)
  }

  /**
   Over any run of calls the queue records history: its pushed prefix grows by exactly
   the pushed points and its popped prefix by exactly the points the pops returned.
   */
  lemma {:induction false} RunKeepsHistory(q: PointQueue, ops: seq<Op>)
    requires Valid(q)
    ensures Valid(Run(q, ops).queue)
    ensures Run(q, ops).queue.data == q.data + Pushed(ops)
    ensures Pops(Run(q, ops).queue) == Pops(q) + Run(q, ops).popped
    decreases |ops|, 1
  {
    if ops == [] {
      assert Pushed(ops) == [];
    } else if ops[0].PushOp? {
      RunPushKeepsHistory(q, ops);
    } else {
      RunPopKeepsHistory(q, ops);
    }
  }

  lemma {:induction false} RunPushKeepsHistory(q: PointQueue, ops: seq<Op>)
    requires Valid(q) && ops != [] && ops[0].PushOp?
    ensures Valid(Run(q, ops).queue)
    ensures Run(q, ops).queue.data == q.data + Pushed(ops)
    ensures Pops(Run(q, ops).queue) == Pops(q) + Run(q, ops).popped
    decreases |ops|, 0
  {
    var p := ops[0].p;
    var q1 := Push(q, p);
    RunKeepsHistory(q1, ops[1..]);
    assert Pushed(ops) == [p] + Pushed(ops[1..]);
    assert (q.data + [p]) + Pushed(ops[1..]) == q.data + ([p] + Pushed(ops[1..]));
  }

  lemma {:induction false} RunPopKeepsHistory(q: PointQueue, ops: seq<Op>)
    requires Valid(q) && ops != [] && ops[0].PopOp?
    ensures Valid(Run(q, ops).queue)
    ensures Run(q, ops).queue.data == q.data + Pushed(ops)
    ensures Pops(Run(q, ops).queue) == Pops(q) + Run(q, ops).popped
    decreases |ops|, 0
  {
    var r := Pop(q, Point(0, 0));
    RunKeepsHistory(r.queue, ops[1..]);
    var t := Run(r.queue, ops[1..]);
    assert Pushed(ops) == Pushed(ops[1..]);
    if r.ok {
      assert Run(q, ops) == Trace(t.queue, [r.point] + t.popped);
      Assoc(Pops(q), [r.point], t.popped);
    } else {
      assert Run(q, ops) == Trace(t.queue, t.popped);
    }
  }

  lemma Assoc(a: seq<Point>, b: seq<Point>, c: seq<Point>)
    ensures (a + b) + c == a + (b + c)
  {
  }

  lemma CancelPrefix(a: seq<Point>, b: seq<Point>, c: seq<Point>)
    requires a + b == a + c
    ensures b == c
  {
    assert b == (a + b)[|a|..];
    assert c == (a + c)[|a|..];
  }

  lemma SplitAt(s: seq<Point>, i: int)
    requires 0 <= i <= |s|
    ensures s == s[..i] + s[i..]
  {
  }

  /**
   The queue is first-in first-out: the points it held plus the points pushed come out
   in order, as the points popped followed by the points still queued.
   */
  lemma FifoFrom(q: PointQueue, ops: seq<Op>)
    requires Valid(q)
    ensures Valid(Run(q, ops).queue)
    ensures Run(q, ops).popped + Contents(Run(q, ops).queue) == Contents(q) + Pushed(ops)
  {
    var t := Run(q, ops);
    var qf := t.queue;
    RunKeepsHistory(q, ops);
    SplitAt(q.data, q.start);
    SplitAt(qf.data, qf.start);
    Assoc(Pops(q), t.popped, Contents(qf));
    Assoc(Pops(q), Contents(q), Pushed(ops));
    CancelPrefix(Pops(q), t.popped + Contents(qf), Contents(q) + Pushed(ops));
  }

  /**
   From an empty queue, such as a fresh one from `pq_create`, the popped points are a
   prefix of the pushed points, in order, and the rest of them are still queued.
   */
  lemma Fifo(q: PointQueue, ops: seq<Op>)
    requires Valid(q) && q.size == 0
    ensures Valid(Run(q, ops).queue)
    ensures Run(q, ops).popped + Contents(Run(q, ops).queue) == Pushed(ops)
    ensures Run(q, ops).popped <= Pushed(ops)
  {
    FifoFrom(q, ops);
    assert Contents(q) == [];
  }
}
