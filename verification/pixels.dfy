/**
 Value types of the raster engine: an 8-bit channel, an RGBA colour, and an
 integer point in canvas coordinates (src/Bitmap.h and the `Point` record of
 src/Bitmap.cpp).
 */
module Pixels {
  import opened Arith

  /** One `unsigned char` channel. */
  type byte = x: int | 0 <= x < 256

  /** Four independent channels, in memory order R, G, B, A. */
  datatype Color = Color(r: byte, g: byte, b: byte, a: byte)

  /** Fully transparent black, the colour of every pixel of a freshly created bitmap. */
  const Transparent: Color := Color(0, 0, 0, 0)

  /** Channel k (0 = red .. 3 = alpha) of a colour, as laid out in the byte buffer. */
  function Channel(c: Color, k: int): byte
    requires 0 <= k < 4
  {
    if k == 0 then c.r else if k == 1 then c.g else if k == 2 then c.b else c.a
  }

  /** `color_eq`: colours match when all four channels do, with no tolerance. */
  function ColorEq(c1: Color, c2: Color): (eq: bool)
    ensures eq <==> c1 == c2
  {
    c1.r == c2.r && c1.g == c2.g && c1.b == c2.b && c1.a == c2.a
  }

  /** Equal colours are exactly those that agree in every channel of the byte layout. */
  lemma ColorEqChannels(c1: Color, c2: Color)
    ensures ColorEq(c1, c2) <==> forall k :: 0 <= k < 4 ==> Channel(c1, k) == Channel(c2, k)
  {
    if !ColorEq(c1, c2) {
      if c1.r != c2.r { assert Channel(c1, 0) != Channel(c2, 0); }
      else if c1.g != c2.g { assert Channel(c1, 1) != Channel(c2, 1); }
      else if c1.b != c2.b { assert Channel(c1, 2) != Channel(c2, 2); }
      else { assert Channel(c1, 3) != Channel(c2, 3); }
    }
  }

  datatype Point = Point(x: int, y: int)

  /** The four cardinal neighbours used by the flood fill, in the order it visits them. */
  function West(p: Point): Point { Point(p.x - 1, p.y) }
  function East(p: Point): Point { Point(p.x + 1, p.y) }
  function North(p: Point): Point { Point(p.x, p.y - 1) }
  function South(p: Point): Point { Point(p.x, p.y + 1) }

  /** 4-connectivity: q is one step left, right, up or down from p. */
  predicate Adjacent(p: Point, q: Point) {
    q == West(p) || q == East(p) || q == North(p) || q == South(p)
  }

  predicate InBox(p: Point, w: int, h: int) {
    0 <= p.x < w && 0 <= p.y < h
  }

  /** A row of a w-wide grid holds at most w distinct points. */
  lemma {:induction false} CardRow(s: set<Point>, w: nat, y: int)
    requires forall p :: p in s ==> p.y == y && 0 <= p.x < w
    ensures |s| <= w
  {
    if w == 0 {
      assert s == {};
    } else {
      var s' := s - {Point(w - 1, y)};
      CardRow(s', w - 1, y);
      assert s <= s' + {Point(w - 1, y)};
    }
  }

  /** A w-by-h grid holds at most w*h distinct points: the bound on flood-fill pushes. */
  lemma {:induction false} CardBox(s: set<Point>, w: nat, h: nat)
    requires forall p :: p in s ==> InBox(p, w, h)
    ensures |s| <= w * h
  {
    if h == 0 {
      assert s == {};
    } else {
      var top := set p | p in s && p.y == h - 1;
      var rest := s - top;
      CardRow(top, w, h - 1);
      assert forall p :: p in rest ==> InBox(p, w, h - 1);
      CardBox(rest, w, h - 1);
      CardUnion(s, top, rest, w, h);
    }
  }

  lemma CardUnion(s: set<Point>, top: set<Point>, rest: set<Point>, w: nat, h: nat)
    requires 0 < h && s == top + rest && top !! rest
    requires |top| <= w && |rest| <= w * (h - 1)
    ensures |s| <= w * h
  {
    MulSucc(h - 1, w);
    assert w * (h - 1) == (h - 1) * w;
  }
}
