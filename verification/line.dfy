/**
 `bitmap_draw_line` (src/Bitmap.cpp): a DDA that paints both endpoints and then
 `step = max(|dx|, |dy|)` samples, sample i sitting at `p1 + (p2 - p1)*i/step`
 with each coordinate truncated toward zero.
 */
module Lines {
  import opened Pixels
  import opened Arith
  import opened Bitmaps

  function Abs(n: int): nat {
    if n < 0 then -n else n
  }

  function Min(a: int, b: int): int { if a <= b then a else b }
  function Max(a: int, b: int): int { if a <= b then b else a }

  /** Number of interior samples: the larger of the horizontal and vertical extents. */
  function Steps(x1: int, y1: int, x2: int, y2: int): nat {
    var width := Abs(x2 - x1);
    var height := Abs(y2 - y1);
    if width > height then width else height
  }

  /**
   Coordinate of sample i along one axis. The source computes it in `double` and casts
   to `int`; here the quotient is exact and the cast's truncation toward zero explicit.
   */
  function Sample(a1: int, a2: int, step: int, i: int): int
    requires 0 < step
  {
    TruncDiv(a1 * step + (a2 - a1) * i, step)
  }

  function SamplePoint(x1: int, y1: int, x2: int, y2: int, i: int): Point
    requires 0 < Steps(x1, y1, x2, y2)
  {
    var step := Steps(x1, y1, x2, y2);
    Point(Sample(x1, x2, step, i), Sample(y1, y2, step, i))
  }

  /** The first n interior samples. */
  function SamplesBelow(x1: int, y1: int, x2: int, y2: int, n: int): set<Point>
    requires n <= Steps(x1, y1, x2, y2)
  {
    set i | 0 <= i < n :: SamplePoint(x1, y1, x2, y2, i)
  }

  /** Every point the line from (x1, y1) to (x2, y2) paints: the endpoints and all samples. */
  function LinePixels(x1: int, y1: int, x2: int, y2: int): set<Point> {
    {Point(x1, y1), Point(x2, y2)} + SamplesBelow(x1, y1, x2, y2, Steps(x1, y1, x2, y2))
  }

  /** p lies in the bounding box of the two endpoints. */
  predicate InLineBox(p: Point, x1: int, y1: int, x2: int, y2: int) {
    Min(x1, x2) <= p.x <= Max(x1, x2) && Min(y1, y2) <= p.y <= Max(y1, y2)
  }

  /**
   `bitmap_draw_line`: afterwards exactly the in-bounds points of the line carry the
   line's colour, and every other pixel is as it was.
   */
  method DrawLine(b: Bitmap, x1: int, y1: int, x2: int, y2: int, c: Color) returns (r: Bitmap)
    requires Valid(b)
    ensures Valid(r) && SameShape(b, r)
    ensures forall u, v :: InBounds(b, u, v) ==>
      PixelAt(r, u, v) == if Point(u, v) in LinePixels(x1, y1, x2, y2) then c else PixelAt(b, u, v)
    ensures InBounds(b, x1, y1) ==> PixelAt(r, x1, y1) == c
    ensures InBounds(b, x2, y2) ==> PixelAt(r, x2, y2) == c
    ensures forall u, v :: InBounds(b, u, v) && PixelAt(r, u, v) != PixelAt(b, u, v) ==>
      PixelAt(r, u, v) == c && InLineBox(Point(u, v), x1, y1, x2, y2)
  {
    RepaintedNothing(b, c);
    r := DrawPixel(b, x1, y1, c).bitmap;
    RepaintedStep(b, b, {}, c, x1, y1);
    r := DrawPixel(r, x2, y2, c).bitmap;
    ghost var ends := {Point(x1, y1), Point(x2, y2)};
    RepaintedStep(b, DrawPixel(b, x1, y1, c).bitmap, {Point(x1, y1)}, c, x2, y2);
    var width := Abs(x2 - x1);
    var height := Abs(y2 - y1);
    var step := if width > height then width else height;
    assert ends + SamplesBelow(x1, y1, x2, y2, 0) == ends;
    if step != 0 {
      var i := 0;
      while i < step
        invariant 0 <= i <= step
        invariant Repainted(b, r, ends + SamplesBelow(x1, y1, x2, y2, i), c)
      {
        ghost var before := r;
        r := DrawPixel(r, Sample(x1, x2, step, i), Sample(y1, y2, step, i), c).bitmap;
        RepaintedStep(b, before, ends + SamplesBelow(x1, y1, x2, y2, i), c,
                      Sample(x1, x2, step, i), Sample(y1, y2, step, i));
        assert SamplesBelow(x1, y1, x2, y2, i + 1)
            == SamplesBelow(x1, y1, x2, y2, i) + {SamplePoint(x1, y1, x2, y2, i)};
        assert ends + SamplesBelow(x1, y1, x2, y2, i + 1)
            == ends + SamplesBelow(x1, y1, x2, y2, i) + {SamplePoint(x1, y1, x2, y2, i)};
        i := i + 1;
      }
    }
    assert ends + SamplesBelow(x1, y1, x2, y2, step) == LinePixels(x1, y1, x2, y2);
    LineInBox(x1, y1, x2, y2);
    RepaintedChanges(b, r, LinePixels(x1, y1, x2, y2), c);
  }

  /** One sample coordinate stays between the two endpoint coordinates. */
  lemma SampleBetween(a1: int, a2: int, step: int, i: int)
    requires 0 <= i < step
    ensures Min(a1, a2) <= Sample(a1, a2, step, i) <= Max(a1, a2)
  {
    var n := a1 * step + (a2 - a1) * i;
    if a1 <= a2 {
      MulMonotone(0, a2 - a1, i);
      MulMonotone(i, step, a2 - a1);
      assert a1 * step + (a2 - a1) * step == a2 * step;
      TruncDivBetween(n, step, a1, a2);
    } else {
      MulMonotone(0, a1 - a2, i);
      MulMonotone(i, step, a1 - a2);
      assert a1 * step - (a1 - a2) * step == a2 * step;
      assert (a2 - a1) * i == -((a1 - a2) * i);
      TruncDivBetween(n, step, a2, a1);
    }
  }

  /** Every point of a line lies in the bounding box of its endpoints. */
  lemma LineInBox(x1: int, y1: int, x2: int, y2: int)
    ensures forall p :: p in LinePixels(x1, y1, x2, y2) ==> InLineBox(p, x1, y1, x2, y2)
  {
    var step := Steps(x1, y1, x2, y2);
    forall p | p in SamplesBelow(x1, y1, x2, y2, step)
      ensures InLineBox(p, x1, y1, x2, y2)
    {
      var i :| 0 <= i < step && p == SamplePoint(x1, y1, x2, y2, i);
      SampleBetween(x1, x2, step, i);
      SampleBetween(y1, y2, step, i);
    }
  }

  /** When both endpoints coincide (`step == 0`) the line is that single point. */
  lemma DegenerateLine(x: int, y: int)
    ensures LinePixels(x, y, x, y) == {Point(x, y)}
  {
    assert Steps(x, y, x, y) == 0;
    assert SamplesBelow(x, y, x, y, 0) == {};
  }

  /** Along an axis whose extent is the step count, sample i is exactly i pixels from the start. */
  lemma SampleAlongAxis(a1: int, a2: int, step: int, i: int)
    requires 0 < step && step == Abs(a2 - a1)
    ensures Sample(a1, a2, step, i) == if a1 <= a2 then a1 + i else a1 - i
  {
    if a1 <= a2 {
      assert a1 * step + (a2 - a1) * i == (a1 + i) * step;
      TruncDivExact(a1 + i, step);
    } else {
      assert a1 * step + (a2 - a1) * i == (a1 - i) * step;
      TruncDivExact(a1 - i, step);
    }
  }

  /** Along an axis with no extent, every sample stays on the endpoints' coordinate. */
  lemma SampleConstant(a: int, step: int, i: int)
    requires 0 < step
    ensures Sample(a, a, step, i) == a
  {
    TruncDivExact(a, step);
  }

  /** A horizontal line paints exactly the pixels between its endpoints, inclusive. */
  lemma HorizontalLine(x1: int, x2: int, y: int)
    ensures LinePixels(x1, y, x2, y) == set x | Min(x1, x2) <= x <= Max(x1, x2) :: Point(x, y)
  {
    var step := Steps(x1, y, x2, y);
    var span := set x | Min(x1, x2) <= x <= Max(x1, x2) :: Point(x, y);
    if step == 0 {
      DegenerateLine(x1, y);
      assert span == {Point(x1, y)};
    } else {
      assert step == Abs(x2 - x1);
      forall p | p in LinePixels(x1, y, x2, y)
        ensures p in span
      {
        if p in SamplesBelow(x1, y, x2, y, step) {
          var i :| 0 <= i < step && p == SamplePoint(x1, y, x2, y, i);
          SampleAlongAxis(x1, x2, step, i);
          SampleConstant(y, step, i);
        }
      }
      forall p | p in span
        ensures p in LinePixels(x1, y, x2, y)
      {
        if p.x != x2 {
          var i := Abs(p.x - x1);
          SampleAlongAxis(x1, x2, step, i);
          SampleConstant(y, step, i);
          assert p == SamplePoint(x1, y, x2, y, i);
        }
      }
    }
  }

  /** A vertical line paints exactly the pixels between its endpoints, inclusive. */
  lemma VerticalLine(x: int, y1: int, y2: int)
    ensures LinePixels(x, y1, x, y2) == set y | Min(y1, y2) <= y <= Max(y1, y2) :: Point(x, y)
  {
    var step := Steps(x, y1, x, y2);
    var span := set y | Min(y1, y2) <= y <= Max(y1, y2) :: Point(x, y);
    if step == 0 {
      DegenerateLine(x, y1);
      assert span == {Point(x, y1)};
    } else {
      assert step == Abs(y2 - y1);
      forall p | p in LinePixels(x, y1, x, y2)
        ensures p in span
      {
        if p in SamplesBelow(x, y1, x, y2, step) {
          var i :| 0 <= i < step && p == SamplePoint(x, y1, x, y2, i);
          SampleAlongAxis(y1, y2, step, i);
          SampleConstant(x, step, i);
        }
      }
      forall p | p in span
        ensures p in LinePixels(x, y1, x, y2)
      {
        if p.y != y2 {
          var i := Abs(p.y - y1);
          SampleAlongAxis(y1, y2, step, i);
          SampleConstant(x, step, i);
          assert p == SamplePoint(x, y1, x, y2, i);
        }
      }
    }
  }
}
