# Raster engine of the painter: a verified model

This project models the pixel-buffer core of the painter, `src/Bitmap.cpp` with
the types declared in `src/Bitmap.h`. The model has five parts:

- **Colours and points** (`pixels.dfy`, module `Pixels`). A `Color` is four
  independent bytes in memory order R, G, B, A. `ColorEq` is `color_eq`. A
  `Point` is an integer canvas coordinate, and a pixel has four cardinal
  neighbours.
- **The raster** (`bitmap.dfy`, module `Bitmaps`). A `Bitmap` is a byte sequence
  of `width*height*4` bytes, row-major, with the pixel at (x, y) starting at
  byte `(y*width + x)*4`. The module covers `bitmap_create`, the bounds-checked
  `bitmap_get_pixel` and `bitmap_draw_pixel`, and their frame and round-trip
  laws. A C function that changes `*color` or `*bitmap` and returns a `bool`
  becomes a pure function. It takes the old value and returns the flag
  together with the new value (`Fetched`, `Drawn`).
- **Line drawing** (`line.dfy`, module `Lines`). `bitmap_draw_line` is a DDA
  that paints both endpoints and then `max(|dx|, |dy|)` interior samples.
  `LinePixels` is the set of points it paints. The module proves that only
  that set changes, that the set lies in the endpoints' bounding box, that a
  zero-length line is one point, and that horizontal and vertical lines paint
  exactly the pixels between their endpoints.
- **The frontier queue** (`point_queue.dfy`, module `PointQueues`). This models
  `PointQueue`: a growable array read at `start`, written at `end`, and doubled
  by copying when full. It covers the representation invariant, `pq_push` and
  `pq_pop`, and FIFO order over any run of calls.
- **Flood fill** (`fill.dfy`, module `Fills`). `bitmap_fill` is a breadth-first,
  4-connected fill. A ghost "painted" set drives its loop invariant. The
  reference notion is `Connected`: a 4-neighbour path of pixels that all have
  the seed's colour.
  - The module proves that the fill repaints exactly the seed's region and
    leaves every other pixel alone.
  - It does nothing when the seed is out of bounds or already has the fill
    colour.
  - It terminates, with one push per pixel of the region, so at most
    `width*height` pushes.

Supporting modules: `arith.dfy` (module `Arith`) holds the nonlinear integer
facts. It also defines `TruncDiv`, which divides truncating toward zero as a C
cast from `double` to `int` does.

The source has no I/O, clock or randomness in this core. Allocation is
modelled by values: a bitmap or queue is a value, and each operation returns
the updated one.

## Model

| member | source | states |
|---|---|---|
| Pixels.ColorEq | src/Bitmap.cpp:63-66 | colours compare equal exactly when they are the same colour, with no tolerance |
| Pixels.ColorEqChannels | src/Bitmap.cpp:63-66 | `color_eq` holds exactly when all four channels, in buffer order R, G, B, A, agree |
| Pixels.CardBox | src/Bitmap.cpp:148-177 | a set of pixels inside a `w`-by-`h` grid has at most `w*h` members, which bounds the fill's pushes |
| PointQueues.Create | src/Bitmap.cpp:19-28 | a fresh queue satisfies the invariant, has capacity 1024, holds nothing and has popped nothing |
| PointQueues.Push | src/Bitmap.cpp:35-50 | push keeps the invariant and appends the point to the queued points; capacity doubles exactly when `end == capacity`; every stored slot and every popped point is kept |
| PointQueues.Pop | src/Bitmap.cpp:52-61 | pop fails exactly on an empty queue, and then changes neither the queue nor `*p`; otherwise it yields the oldest queued point, drops it from the queue and records it as popped; the stored slots are untouched |
| PointQueues.RunKeepsHistory | src/Bitmap.cpp:35-61 | over any sequence of pushes and pops, the stored slots grow by exactly the pushed points and the popped prefix by exactly the points the pops returned |
| PointQueues.FifoFrom | src/Bitmap.cpp:35-61 | first in, first out: the points popped followed by the points still queued are the points queued at the start followed by the points pushed, in order |
| PointQueues.Fifo | src/Bitmap.cpp:35-61 | from an empty queue, the popped points are a prefix of the pushed points, in order, and the rest of the pushed points are still queued |
| Bitmaps.Create | src/Bitmap.cpp:68-81 | a new bitmap has the requested dimensions, `size == width*height*4` bytes, every byte 0, and so every pixel transparent black |
| Bitmaps.OffsetInRange | src/Bitmap.cpp:92-96 | the four bytes of an in-bounds pixel lie inside the buffer, so accesses guarded by the bounds check stay in memory |
| Bitmaps.OffsetsDisjoint | src/Bitmap.cpp:106-110 | distinct in-bounds pixels own disjoint four-byte groups |
| Bitmaps.GetPixel | src/Bitmap.cpp:88-100 | the read succeeds exactly for in-bounds coordinates; on failure `*color` is untouched; on success each channel is the byte at `(y*w+x)*4 + k` |
| Bitmaps.GetPixelReadsPixel | src/Bitmap.cpp:88-100 | a successful read yields the colour stored at that pixel |
| Bitmaps.DrawPixel | src/Bitmap.cpp:102-114 | the write succeeds exactly in bounds and otherwise changes nothing; in bounds it writes exactly the pixel's four bytes, so only that pixel changes |
| Bitmaps.WriteFrame | src/Bitmap.cpp:107-110 | the four byte stores make the written pixel read back as the colour and leave every other pixel as it was |
| Bitmaps.GetAfterDraw | src/Bitmap.cpp:88-114 | reading a pixel just drawn returns the drawn colour |
| Bitmaps.GetAfterDrawElsewhere | src/Bitmap.cpp:88-114 | drawing one pixel does not change the result of reading any other coordinate, in bounds or not |
| Bitmaps.RepaintedNothing | src/Bitmap.cpp:102-114 | a bitmap is itself repainted over the empty set |
| Bitmaps.RepaintedStep | src/Bitmap.cpp:102-114 | one more pixel write in colour c extends the set of pixels repainted c by that point |
| Bitmaps.RepaintedChanges | src/Bitmap.cpp:102-114 | after repainting a set in colour c, every pixel that changed now has colour c and is in the set |
| Lines.DrawLine | src/Bitmap.cpp:116-134 | afterwards an in-bounds pixel has the line colour if it is an endpoint or a sample and is otherwise unchanged; in-bounds endpoints are painted; every changed pixel has the line colour and lies in the endpoints' bounding box |
| Lines.SampleBetween | src/Bitmap.cpp:126-131 | each truncated sample coordinate lies between the two endpoint coordinates |
| Lines.LineInBox | src/Bitmap.cpp:116-134 | every point the line paints lies in the endpoints' bounding box |
| Lines.DegenerateLine | src/Bitmap.cpp:118-123 | when both endpoints coincide (`step == 0`) the line paints that single point and nothing else |
| Lines.SampleAlongAxis | src/Bitmap.cpp:120-131 | along the axis whose extent equals the step count, sample i is exactly i pixels from the first endpoint |
| Lines.SampleConstant | src/Bitmap.cpp:124-131 | along an axis with no extent, every sample stays on the endpoints' coordinate |
| Lines.HorizontalLine | src/Bitmap.cpp:116-134 | a horizontal line paints exactly the pixels between its endpoints, inclusive |
| Lines.VerticalLine | src/Bitmap.cpp:116-134 | a vertical line paints exactly the pixels between its endpoints, inclusive |
| Fills.ConnectedStep | src/Bitmap.cpp:151-175 | the seed's region extends to every 4-neighbour of its pixels that has the target colour |
| Fills.Visit | src/Bitmap.cpp:152-157 | one neighbour check: a neighbour that is in bounds and has the target colour is painted and queued; any other neighbour changes nothing |
| Fills.VisitPaints | src/Bitmap.cpp:152-157 | a target-coloured neighbour has not been painted before, and painting and queueing it keeps the fill invariant |
| Fills.VisitSkips | src/Bitmap.cpp:152-157 | a neighbour that currently lacks the target colour is either not target-coloured in the original bitmap or already painted |
| Fills.VisitKeeps | src/Bitmap.cpp:152-175 | each neighbour check keeps the fill invariant, only grows the painted set, and leaves the neighbour settled |
| Fills.PaintedStaysClosed | src/Bitmap.cpp:152-157 | after painting and queueing a pixel, every painted pixel is still queued, being expanded, or has all its target-coloured neighbours painted |
| Fills.RegionFits | src/Bitmap.cpp:148-177 | any set of pixels of the seed's region has at most `width*height` members |
| Fills.PopKeeps | src/Bitmap.cpp:149-151 | popping a non-empty frontier succeeds, yields a painted pixel and keeps the invariant with that pixel being expanded |
| Fills.Expand | src/Bitmap.cpp:151-175 | the loop body checks West, East, North and South in that order and keeps the bitmap's shape and the queue's invariant |
| Fills.ExpandKeeps | src/Bitmap.cpp:151-175 | expanding the popped pixel restores the invariant, grows the painted set and pushes once per newly painted pixel |
| Fills.Settle | src/Bitmap.cpp:151-175 | once its four neighbours are settled, the expanded pixel is closed |
| Fills.StartKeeps | src/Bitmap.cpp:140-149 | painting and queueing the seed on a fresh queue establishes the invariant |
| Fills.ClosedHoldsPath | src/Bitmap.cpp:149-177 | a target-coloured path that starts in a painted set closed under target-coloured neighbours ends in it |
| Fills.Finished | src/Bitmap.cpp:149-177 | when the queue runs dry, a pixel is painted exactly when it is connected to the seed through target-coloured pixels |
| Fills.ComponentIs | src/Bitmap.cpp:149-177 | a set characterised by connectivity to the seed is the seed's region |
| Fills.FillDone | src/Bitmap.cpp:149-177 | at loop exit exactly the seed's region is repainted and the number of pushes is its size |
| Fills.Spread | src/Bitmap.cpp:149-177 | the fill loop terminates having repainted exactly the seed's region, pushing once per pixel of it and at most `width*height` times |
| Fills.RegionAlreadyColored | src/Bitmap.cpp:143-147 | if the seed already has the fill colour, leaving the bitmap unchanged is the same as repainting the seed's region |
| Fills.Fill | src/Bitmap.cpp:136-180 | an out-of-bounds seed, or a seed that already has the colour, changes nothing; otherwise exactly the 4-connected region of the seed's colour around the seed is repainted, every other pixel is unchanged, and the queue sees one push per pixel of that region, at most `width*height` |

## Left out

- The rest of the repository is not part of this model: the Qt editor, menus,
  docks and dialogs, the OpenGL widget and its zoom arithmetic, layers, the
  image and its undo history, and the tool enum. Layer compositing, rotation,
  flipping and history have no implementation in the source.
- Memory management is not modelled: `malloc`, `free`, `pq_free` and
  `bitmap_free`. This includes the queue that `bitmap_fill` leaks when it
  returns early at src/Bitmap.cpp:145. Buffers are values, so allocation
  failure (a null `malloc`) is not represented either.
- Bitmaps.Create: requires non-negative dimensions and a byte count that fits
  in an `int`. The source computes `width*height*4` in an `int` without
  checking either, so a negative or overflowing size is outside the model.
  The C code does not reject a negative size with an error; the model follows
  the code.
- Lines.DrawLine: the interior samples are exact truncations toward zero of
  `x1 + (x2-x1)*i/step`. The source computes them in `double`, and the effect
  of floating-point rounding on a sample just below an integer is not modelled.
  The endpoint, bounding-box and axis-aligned results do not depend on it.
- Lines.DrawLine: coordinates are unbounded integers. The source's `x2 - x1`
  and `abs` can overflow an `int` for extreme coordinates.
- PointQueues.Push: capacity doubling and the `size`, `start` and `end`
  counters are unbounded. In the source they are `int`s that would overflow
  after about 2^30 pushes.
- PointQueues.Push: slots from `end` to `capacity` are allocated but never
  written. They are not represented, so the model keeps only the written
  prefix of the array.
- Fills.Fill: the second result `pushes`, the queue's final `end`, is not
  returned by the source. It is exposed only to state the bound on the
  queue's growth.
- Fills.Fill: `targetColor`, `currentColor` and `p` start uninitialised in the
  source. Each is read only after a successful `bitmap_get_pixel` or `pq_pop`
  has written it, so the model starts them from arbitrary values.
- Fills.Expand: its own contract states only that the bitmap keeps its shape
  and the queue its invariant. What it paints and queues is stated by
  Fills.ExpandKeeps, one neighbour at a time through Fills.VisitKeeps.
