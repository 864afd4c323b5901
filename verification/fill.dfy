/**
 `bitmap_fill` (src/Bitmap.cpp): a breadth-first, 4-connected flood fill. It
 reads the seed's colour as the target, gives up if the seed is outside the
 bitmap or already has the fill colour, and otherwise paints the seed, queues
 it, and repeatedly pops a pixel and paints and queues each of its four
 neighbours that still has the target colour.

 Because the fill colour differs from the target, painting a pixel removes it
 from the target colour, so no pixel is queued twice: the pixels painted so far
 form a set that only grows, each pop either grows it or shrinks the queue, and
 the queue sees at most `width*height` pushes.
 */
module Fills {
  import opened Pixels
  import opened Bitmaps
  import Q = PointQueues

  /** p is an in-bounds pixel of colour t in b. */
  ghost predicate HasColor(b: Bitmap, p: Point, t: Color)
    requires Valid(b)
  {
    InBounds(b, p.x, p.y) && PixelAt(b, p.x, p.y) == t
  }

  /** A walk through pixels of colour t, each step to a 4-neighbour. */
  ghost predicate IsPath(b: Bitmap, t: Color, path: seq<Point>)
    requires Valid(b)
  {
    && |path| > 0
    && (forall i :: 0 <= i < |path| ==> HasColor(b, path[i], t))
    && (forall i :: 0 <= i < |path| - 1 ==> Adjacent(path[i], path[i + 1]))
  }

  /** p lies in the 4-connected region of colour t that contains s. */
  ghost predicate Connected(b: Bitmap, t: Color, s: Point, p: Point)
    requires Valid(b)
  {
    exists path :: IsPath(b, t, path) && path[0] == s && path[|path| - 1] == p
  }

  /** The 4-connected region of the seed's colour that contains the in-bounds seed (x, y). */
  ghost function Component(b: Bitmap, x: int, y: int): set<Point>
    requires Valid(b) && InBounds(b, x, y)
  {
    set u, v | 0 <= u < b.width && 0 <= v < b.height
               && Connected(b, PixelAt(b, x, y), Point(x, y), Point(u, v)) :: Point(u, v)
  }

  lemma ConnectedHasColor(b: Bitmap, t: Color, s: Point, p: Point)
    requires Valid(b) && Connected(b, t, s, p)
    ensures HasColor(b, p, t)
  {
  }

  lemma ConnectedSelf(b: Bitmap, t: Color, s: Point)
    requires Valid(b) && HasColor(b, s, t)
    ensures Connected(b, t, s, s)
  {
    assert IsPath(b, t, [s]);
  }

  /** A region extends to every neighbour of one of its pixels that has the region's colour. */
  lemma ConnectedStep(b: Bitmap, t: Color, s: Point, p: Point, n: Point)
    requires Valid(b) && Connected(b, t, s, p) && Adjacent(p, n) && HasColor(b, n, t)
    ensures Connected(b, t, s, n)
  {
    var path :| IsPath(b, t, path) && path[0] == s && path[|path| - 1] == p;
    var longer := path + [n];
    assert IsPath(b, t, longer);
    assert longer[0] == s && longer[|longer| - 1] == n;
  }

  /** n is settled with respect to the painted set: if it has the target colour it is painted. */
  ghost predicate Settled(b: Bitmap, t: Color, painted: set<Point>, n: Point)
    requires Valid(b)
  {
    HasColor(b, n, t) ==> n in painted
  }

  /** Every target-coloured neighbour of p is painted. */
  ghost predicate Closed(b: Bitmap, t: Color, painted: set<Point>, p: Point)
    requires Valid(b)
  {
    && Settled(b, t, painted, West(p))
    && Settled(b, t, painted, East(p))
    && Settled(b, t, painted, North(p))
    && Settled(b, t, painted, South(p))
  }

  /**
   The fill loop's invariant, over the original bitmap b, target t, fill colour c and
   seed s: the current bitmap r is b with exactly the set `painted` repainted c; every
   painted pixel is in the seed's region; everything queued is painted; every painted
   pixel is still queued, is being expanded (in `busy`), or has all its target-coloured
   neighbours painted; and each push painted one new pixel.
   */
  ghost predicate FillInv(b: Bitmap, t: Color, c: Color, s: Point,
                          r: Bitmap, q: Q.PointQueue, painted: set<Point>, busy: set<Point>)
    requires Valid(b)
  {
    && Q.Valid(q)
    && Repainted(b, r, painted, c)
    && (forall p :: p in painted ==> Connected(b, t, s, p))
    && (forall p :: p in Q.Contents(q) ==> p in painted)
    && (forall p :: p in painted ==> p in Q.Contents(q) || p in busy || Closed(b, t, painted, p))
    && q.end == |painted|
    && |painted| <= b.width * b.height
  }

  /** The painted set after visiting n: n joins it when it currently has the target colour. */
  ghost function Visited(r: Bitmap, painted: set<Point>, n: Point, t: Color): set<Point>
    requires Valid(r)
  {
    if InBounds(r, n.x, n.y) && PixelAt(r, n.x, n.y) == t then painted + {n} else painted
  }

  /** The bitmap and queue the fill loop threads through its steps. */
  datatype Frontier = Frontier(bitmap: Bitmap, queue: Q.PointQueue)

  /**
   One neighbour check of the fill loop: if n is in bounds and currently has the target
   colour, paint it and queue it; otherwise change nothing.
   */
  function Visit(r: Bitmap, q: Q.PointQueue, n: Point, t: Color, c: Color): (f: Frontier)
    requires Valid(r) && Q.Valid(q)
    ensures Valid(f.bitmap) && SameShape(r, f.bitmap) && Q.Valid(f.queue)
    ensures InBounds(r, n.x, n.y) && PixelAt(r, n.x, n.y) == t ==>
      f.bitmap == DrawPixel(r, n.x, n.y, c).bitmap && f.queue == Q.Push(q, n)
    ensures !(InBounds(r, n.x, n.y) && PixelAt(r, n.x, n.y) == t) ==> f == Frontier(r, q)
  {
    var current := GetPixel(r, n.x, n.y, t);
    GetPixelReadsPixel(r, n.x, n.y, t);
    if current.ok && ColorEq(current.color, t) then
      Frontier(DrawPixel(r, n.x, n.y, c).bitmap, Q.Push(q, n))
    else
      Frontier(r, q)
  }

  /** Popping the oldest queued pixel puts it in the `busy` role. */
  lemma PopKeeps(b: Bitmap, t: Color, c: Color, s: Point,
                 r: Bitmap, q: Q.PointQueue, painted: set<Point>, p: Point)
    requires Valid(b) && FillInv(b, t, c, s, r, q, painted, {}) && q.size > 0
    ensures Q.Pop(q, p).ok
    ensures Q.Pop(q, p).point in painted
    ensures FillInv(b, t, c, s, r, Q.Pop(q, p).queue, painted, {Q.Pop(q, p).point})
    ensures Q.Pop(q, p).queue.end == q.end && Q.Pop(q, p).queue.size == q.size - 1
  {
    var popped := Q.Pop(q, p);
    var q' := popped.queue;
    assert Q.Contents(q)[0] in Q.Contents(q);
    forall p' | p' in Q.Contents(q')
      ensures p' in Q.Contents(q)
    {
      var i :| 0 <= i < |Q.Contents(q')| && Q.Contents(q')[i] == p';
      assert Q.Contents(q)[i + 1] == p';
    }
    forall p' | p' in painted
      ensures p' in Q.Contents(q') || p' == popped.point || Closed(b, t, painted, p')
    {
      if p' in Q.Contents(q) && p' != popped.point {
        var i :| 0 <= i < |Q.Contents(q)| && Q.Contents(q)[i] == p';
        assert i != 0;
        assert Q.Contents(q')[i - 1] == p';
      }
    }
  }

  /** A neighbour n that currently has the target colour is new; painting and queueing it keeps the invariant. */
  lemma VisitPaints(b: Bitmap, t: Color, c: Color, s: Point,
                    r: Bitmap, q: Q.PointQueue, painted: set<Point>, p: Point, n: Point)
    requires Valid(b) && t != c && FillInv(b, t, c, s, r, q, painted, {p})
    requires p in painted && Adjacent(p, n)
    requires InBounds(r, n.x, n.y) && PixelAt(r, n.x, n.y) == t
    ensures n !in painted
    ensures FillInv(b, t, c, s, DrawPixel(r, n.x, n.y, c).bitmap, Q.Push(q, n), painted + {n}, {p})
  {
    var q' := Q.Push(q, n);
    assert n !in painted;
    assert HasColor(b, n, t);
    ConnectedStep(b, t, s, p, n);
    RepaintedStep(b, r, painted, c, n.x, n.y);
    PaintedStaysClosed(b, t, painted, Q.Contents(q), p, n);
    QueuedStaysPainted(painted, Q.Contents(q), n);
    CardAddNew(painted, n);
    RegionFits(b, t, s, painted + {n});
  }

  lemma CardAddNew(painted: set<Point>, n: Point)
    requires n !in painted
    ensures |painted + {n}| == |painted| + 1
  {
    assert painted !! {n};
  }

  /** Queueing a newly painted pixel keeps everything queued painted. */
  lemma QueuedStaysPainted(painted: set<Point>, queued: seq<Point>, n: Point)
    requires forall p :: p in queued ==> p in painted
    ensures forall p :: p in queued + [n] ==> p in painted + {n}
  {
  }

  /** Painting and queueing n keeps every painted pixel queued, busy, or closed. */
  lemma PaintedStaysClosed(b: Bitmap, t: Color, painted: set<Point>, queued: seq<Point>,
                           p: Point, n: Point)
    requires Valid(b)
    requires forall p' :: p' in painted ==> p' in queued || p' in {p} || Closed(b, t, painted, p')
    ensures forall p' :: p' in painted + {n} ==>
      p' in queued + [n] || p' in {p} || Closed(b, t, painted + {n}, p')
  {
    forall p' | p' in painted + {n}
      ensures p' in queued + [n] || p' in {p} || Closed(b, t, painted + {n}, p')
    {
      if p' != n && p' !in queued && p' != p {
        assert Closed(b, t, painted, p');
      } else if p' == n {
        assert (queued + [n])[|queued|] == n;
      } else if p' in queued {
        var i :| 0 <= i < |queued| && queued[i] == p';
        assert (queued + [n])[i] == p';
      }
    }
  }

  /** A set of pixels of the seed's region is no larger than the bitmap. */
  lemma RegionFits(b: Bitmap, t: Color, s: Point, region: set<Point>)
    requires Valid(b) && forall p :: p in region ==> Connected(b, t, s, p)
    ensures |region| <= b.width * b.height
  {
    forall p | p in region
      ensures InBox(p, b.width, b.height)
    {
      ConnectedHasColor(b, t, s, p);
    }
    CardBox(region, b.width, b.height);
  }

  /** A neighbour n that does not currently have the target colour needs no work: it is settled already. */
  lemma VisitSkips(b: Bitmap, t: Color, c: Color, r: Bitmap, painted: set<Point>, n: Point)
    requires Valid(b) && Repainted(b, r, painted, c)
    requires !(InBounds(r, n.x, n.y) && PixelAt(r, n.x, n.y) == t)
    ensures Settled(b, t, painted, n)
  {
    if InBounds(b, n.x, n.y) && n !in painted {
      assert PixelAt(r, n.x, n.y) == PixelAt(b, n.x, n.y);
    }
  }

  /** Checking one neighbour n of the busy pixel p keeps the invariant and settles n. */
  lemma VisitKeeps(b: Bitmap, t: Color, c: Color, s: Point,
                   r: Bitmap, q: Q.PointQueue, painted: set<Point>, p: Point, n: Point)
    requires Valid(b) && t != c && FillInv(b, t, c, s, r, q, painted, {p})
    requires p in painted && Adjacent(p, n)
    ensures Valid(r)
    ensures FillInv(b, t, c, s, Visit(r, q, n, t, c).bitmap, Visit(r, q, n, t, c).queue,
                    Visited(r, painted, n, t), {p})
    ensures Settled(b, t, Visited(r, painted, n, t), n)
    ensures painted <= Visited(r, painted, n, t)
    ensures Visit(r, q, n, t, c).queue.start == q.start
    ensures Visit(r, q, n, t, c).queue.end >= q.end
  {
    if InBounds(r, n.x, n.y) && PixelAt(r, n.x, n.y) == t {
      VisitPaints(b, t, c, s, r, q, painted, p, n);
    } else {
      VisitSkips(b, t, c, r, painted, n);
    }
  }

  lemma SettledGrows(b: Bitmap, t: Color, painted: set<Point>, more: set<Point>, n: Point)
    requires Valid(b) && Settled(b, t, painted, n) && painted <= more
    ensures Settled(b, t, more, n)
  {
  }

  /** Once all four neighbours of the busy pixel are settled it is closed and no longer busy. */
  lemma Settle(b: Bitmap, t: Color, c: Color, s: Point,
               r: Bitmap, q: Q.PointQueue, painted: set<Point>, p: Point,
               p1: set<Point>, p2: set<Point>, p3: set<Point>)
    requires Valid(b) && FillInv(b, t, c, s, r, q, painted, {p})
    requires p1 <= p2 <= p3 <= painted
    requires Settled(b, t, p1, West(p)) && Settled(b, t, p2, East(p))
    requires Settled(b, t, p3, North(p)) && Settled(b, t, painted, South(p))
    ensures FillInv(b, t, c, s, r, q, painted, {})
  {
    SettledGrows(b, t, p1, painted, West(p));
    SettledGrows(b, t, p2, painted, East(p));
    SettledGrows(b, t, p3, painted, North(p));
  }

  /** The body of the fill loop for the popped pixel p: check West, East, North and South, in that order. */
  function Expand(r: Bitmap, q: Q.PointQueue, p: Point, t: Color, c: Color): (f: Frontier)
    requires Valid(r) && Q.Valid(q)
    ensures Valid(f.bitmap) && SameShape(r, f.bitmap) && Q.Valid(f.queue)
  {
    var f1 := Visit(r, q, West(p), t, c);
    var f2 := Visit(f1.bitmap, f1.queue, East(p), t, c);
    var f3 := Visit(f2.bitmap, f2.queue, North(p), t, c);
    Visit(f3.bitmap, f3.queue, South(p), t, c)
  }

  /** The painted set after `Expand`. */
  ghost function Expanded(r: Bitmap, q: Q.PointQueue, painted: set<Point>, p: Point, t: Color, c: Color): set<Point>
    requires Valid(r) && Q.Valid(q)
  {
    var f1 := Visit(r, q, West(p), t, c);
    var f2 := Visit(f1.bitmap, f1.queue, East(p), t, c);
    var f3 := Visit(f2.bitmap, f2.queue, North(p), t, c);
    var p1 := Visited(r, painted, West(p), t);
    var p2 := Visited(f1.bitmap, p1, East(p), t);
    var p3 := Visited(f2.bitmap, p2, North(p), t);
    Visited(f3.bitmap, p3, South(p), t)
  }

  /**
   Expanding the busy pixel p restores the invariant with nothing busy; the painted set
   only grows, and the queue grows by one entry per newly painted pixel.
   */
  lemma ExpandKeeps(b: Bitmap, t: Color, c: Color, s: Point,
                    r: Bitmap, q: Q.PointQueue, painted: set<Point>, p: Point)
    requires Valid(b) && t != c && FillInv(b, t, c, s, r, q, painted, {p}) && p in painted
    ensures Valid(r)
    ensures FillInv(b, t, c, s, Expand(r, q, p, t, c).bitmap, Expand(r, q, p, t, c).queue,
                    Expanded(r, q, painted, p, t, c), {})
    ensures painted <= Expanded(r, q, painted, p, t, c)
    ensures Expand(r, q, p, t, c).queue.start == q.start
    ensures Expand(r, q, p, t, c).queue.end >= q.end
  {
    var f0 := Frontier(r, q);
    VisitKeeps(b, t, c, s, r, q, painted, p, West(p));
    var f1 := Visit(r, q, West(p), t, c);
    var p1 := Visited(r, painted, West(p), t);
    VisitKeeps(b, t, c, s, f1.bitmap, f1.queue, p1, p, East(p));
    var f2 := Visit(f1.bitmap, f1.queue, East(p), t, c);
    var p2 := Visited(f1.bitmap, p1, East(p), t);
    VisitKeeps(b, t, c, s, f2.bitmap, f2.queue, p2, p, North(p));
    var f3 := Visit(f2.bitmap, f2.queue, North(p), t, c);
    var p3 := Visited(f2.bitmap, p2, North(p), t);
    VisitKeeps(b, t, c, s, f3.bitmap, f3.queue, p3, p, South(p));
    var f4 := Visit(f3.bitmap, f3.queue, South(p), t, c);
    var p4 := Visited(f3.bitmap, p3, South(p), t);
    Settle(b, t, c, s, f4.bitmap, f4.queue, p4, p, p1, p2, p3);
  }

  /** A path that starts in a set closed under target-coloured neighbours stays in it. */
  lemma {:induction false} ClosedHoldsPath(b: Bitmap, t: Color, painted: set<Point>, path: seq<Point>)
    requires Valid(b) && IsPath(b, t, path) && path[0] in painted
    requires forall p :: p in painted ==> Closed(b, t, painted, p)
    ensures path[|path| - 1] in painted
    decreases |path|
  {
    if |path| > 1 {
      var prefix := path[..|path| - 1];
      assert IsPath(b, t, prefix);
      ClosedHoldsPath(b, t, painted, prefix);
      var last := path[|path| - 1];
      var prev := path[|path| - 2];
      assert Adjacent(prev, last);
      assert Closed(b, t, painted, prev);
      assert HasColor(b, last, t);
    }
  }

  /** When the queue runs dry, the painted set is exactly the seed's region. */
  lemma Finished(b: Bitmap, t: Color, c: Color, s: Point,
                 r: Bitmap, q: Q.PointQueue, painted: set<Point>)
    requires Valid(b) && FillInv(b, t, c, s, r, q, painted, {}) && q.size == 0
    requires s in painted
    ensures forall p :: p in painted <==> Connected(b, t, s, p)
  {
    assert Q.Contents(q) == [];
    forall p | Connected(b, t, s, p)
      ensures p in painted
    {
      var path :| IsPath(b, t, path) && path[0] == s && path[|path| - 1] == p;
      ClosedHoldsPath(b, t, painted, path);
    }
  }

  /** The region as a set of points equals the painted set it was shown equivalent to. */
  lemma ComponentIs(b: Bitmap, x: int, y: int, painted: set<Point>)
    requires Valid(b) && InBounds(b, x, y)
    requires forall p :: p in painted <==> Connected(b, PixelAt(b, x, y), Point(x, y), p)
    ensures Component(b, x, y) == painted
  {
    var t := PixelAt(b, x, y);
    forall p | p in painted
      ensures p in Component(b, x, y)
    {
      ConnectedHasColor(b, t, Point(x, y), p);
      assert Point(p.x, p.y) == p;
    }
  }

  /** If the seed's region already has colour c, it is left exactly as it was. */
  lemma RegionAlreadyColored(b: Bitmap, x: int, y: int, c: Color)
    requires Valid(b) && InBounds(b, x, y) && PixelAt(b, x, y) == c
    ensures forall u, v :: InBounds(b, u, v) ==>
      PixelAt(b, u, v) == if Connected(b, PixelAt(b, x, y), Point(x, y), Point(u, v))
                          then c else PixelAt(b, u, v)
  {
    forall u, v | InBounds(b, u, v) && Connected(b, c, Point(x, y), Point(u, v))
      ensures PixelAt(b, u, v) == c
    {
      ConnectedHasColor(b, c, Point(x, y), Point(u, v));
    }
  }

  /** The state just before the loop: the seed painted and queued, nothing else touched. */
  lemma StartKeeps(b: Bitmap, x: int, y: int, c: Color, q0: Q.PointQueue)
    requires Valid(b) && InBounds(b, x, y)
    requires Q.Valid(q0) && Q.Contents(q0) == [] && Q.Pops(q0) == []
    ensures FillInv(b, PixelAt(b, x, y), c, Point(x, y), DrawPixel(b, x, y, c).bitmap,
                    Q.Push(q0, Point(x, y)), {Point(x, y)}, {})
  {
    var s := Point(x, y);
    var q := Q.Push(q0, s);
    assert |Q.Pops(q0)| == q0.start && |Q.Contents(q0)| == q0.end - q0.start;
    assert Q.Contents(q) == [s];
    RepaintedNothing(b, c);
    RepaintedStep(b, b, {}, c, x, y);
    ConnectedSelf(b, PixelAt(b, x, y), s);
    CardBox({s}, b.width, b.height);
  }

  /** After the loop the painted set is the seed's region: it alone was repainted, one push per pixel. */
  lemma FillDone(b: Bitmap, x: int, y: int, c: Color,
                 r: Bitmap, q: Q.PointQueue, painted: set<Point>)
    requires Valid(b) && InBounds(b, x, y)
    requires FillInv(b, PixelAt(b, x, y), c, Point(x, y), r, q, painted, {})
    requires q.size == 0 && Point(x, y) in painted
    ensures Valid(r) && SameShape(b, r)
    ensures forall u, v :: InBounds(b, u, v) ==>
      PixelAt(r, u, v) == if Connected(b, PixelAt(b, x, y), Point(x, y), Point(u, v))
                          then c else PixelAt(b, u, v)
    ensures q.end == |Component(b, x, y)| <= b.width * b.height
  {
    Finished(b, PixelAt(b, x, y), c, Point(x, y), r, q, painted);
    ComponentIs(b, x, y, painted);
  }

  /**
   The fill loop of `bitmap_fill`, from the seed (x, y) painted and queued: while the
   queue is not empty, pop a pixel and check its four neighbours. When the queue runs
   dry exactly the seed's region has been repainted, with one push per pixel of it.
   */
  method Spread(b: Bitmap, x: int, y: int, c: Color,
                r0: Bitmap, q0: Q.PointQueue, ghost painted0: set<Point>)
    returns (r: Bitmap, q: Q.PointQueue)
    requires Valid(b) && InBounds(b, x, y) && PixelAt(b, x, y) != c
    requires FillInv(b, PixelAt(b, x, y), c, Point(x, y), r0, q0, painted0, {})
    requires Point(x, y) in painted0
    ensures Valid(r) && SameShape(b, r)
    ensures forall u, v :: InBounds(b, u, v) ==>
      PixelAt(r, u, v) == if Connected(b, PixelAt(b, x, y), Point(x, y), Point(u, v))
                          then c else PixelAt(b, u, v)
    ensures q.end == |Component(b, x, y)| <= b.width * b.height
  {
    var t := PixelAt(b, x, y);
    var s := Point(x, y);
    r, q := r0, q0;
    ghost var painted := painted0;
    var p := s;
    while q.size > 0
      invariant FillInv(b, t, c, s, r, q, painted, {})
      invariant s in painted
      decreases b.width * b.height - |painted|, q.size
    {
      PopKeeps(b, t, c, s, r, q, painted, p);
      var popped := Q.Pop(q, p);
      q := popped.queue;
      if popped.ok {
        p := popped.point;
        ExpandKeeps(b, t, c, s, r, q, painted, p);
        painted := Expanded(r, q, painted, p, t, c);
        var f := Expand(r, q, p, t, c);
        r, q := f.bitmap, f.queue;
      }
    }
    FillDone(b, x, y, c, r, q, painted);
  }

  /**
   `bitmap_fill`: repaints with `color` exactly the 4-connected region of the seed's
   colour that contains the seed, and nothing else. The second result counts the
   queue pushes, which is the size of that region and at most `width*height`.
   */
  method Fill(b: Bitmap, x: int, y: int, color: Color) returns (r: Bitmap, pushes: nat)
    requires Valid(b)
    ensures Valid(r) && SameShape(b, r)
    ensures !InBounds(b, x, y) ==> r == b && pushes == 0
    ensures InBounds(b, x, y) && PixelAt(b, x, y) == color ==> r == b && pushes == 0
    ensures InBounds(b, x, y) ==> forall u, v :: InBounds(b, u, v) ==>
      PixelAt(r, u, v) == if Connected(b, PixelAt(b, x, y), Point(x, y), Point(u, v))
                          then color else PixelAt(b, u, v)
    ensures InBounds(b, x, y) && PixelAt(b, x, y) != color ==> pushes == |Component(b, x, y)|
    ensures pushes <= b.width * b.height
  {
    // `targetColor` and `currentColor` start uninitialised in the source; their
    // initial values never matter, because each is read only after a successful get.
    var target := GetPixel(b, x, y, color);
    if !target.ok {
      return b, 0;
    }
    GetPixelReadsPixel(b, x, y, color);
    var t := target.color;
    var q := Q.Create();
    var current := GetPixel(b, x, y, t);
    GetPixelReadsPixel(b, x, y, t);
    if current.ok && ColorEq(current.color, color) {
      RegionAlreadyColored(b, x, y, color);
      return b, 0;
    }
    var s := Point(x, y);
    StartKeeps(b, x, y, color, q);
    r := DrawPixel(b, x, y, color).bitmap;
    q := Q.Push(q, s);
    r, q := Spread(b, x, y, color, r, q, {s});
    pushes := q.end;
  }
}
