/**
 The raw RGBA8 raster (`Bitmap` in src/Bitmap.h, `bitmap_create`,
 `bitmap_get_pixel`, `bitmap_draw_pixel` in src/Bitmap.cpp): `width*height`
 pixels stored row-major, four bytes per pixel in R, G, B, A order, the pixel
 at (x, y) starting at byte `(y*width + x)*4`.
 */
module Bitmaps {
  import opened Pixels
  import opened Arith

  /** Largest value of a C `int`; `bitmap_create` computes the byte count in one. */
  const MaxInt: int := 0x7fff_ffff

  datatype Bitmap = Bitmap(data: seq<byte>, width: int, height: int, size: int)

  /** The buffer holds exactly four bytes for every pixel of a non-negative size. */
  predicate Valid(b: Bitmap) {
    && 0 <= b.width
    && 0 <= b.height
    && b.size == b.width * b.height * 4
    && |b.data| == b.size
  }

  predicate InBounds(b: Bitmap, x: int, y: int) {
    0 <= x < b.width && 0 <= y < b.height
  }

  /** Two bitmaps of the same dimensions. */
  predicate SameShape(b: Bitmap, b': Bitmap) {
    b'.width == b.width && b'.height == b.height && b'.size == b.size
  }

  /** Byte offset of the first channel of pixel (x, y). */
  function Offset(b: Bitmap, x: int, y: int): int {
    (y * b.width + x) * 4
  }

  /** Every in-bounds pixel owns four bytes that lie inside the buffer. */
  lemma OffsetInRange(b: Bitmap, x: int, y: int)
    requires Valid(b) && InBounds(b, x, y)
    ensures 0 <= Offset(b, x, y) && Offset(b, x, y) + 4 <= |b.data|
  {
    var w, h := b.width, b.height;
    MulMonotone(y, h - 1, w);
    MulSucc(h - 1, w);
    assert 0 <= y * w;
    assert y * w + x < h * w;
    assert h * w == w * h;
    assert (y * w + x) * 4 + 4 <= (w * h) * 4;
  }

  /** Distinct in-bounds pixels have distinct indices in row-major order. */
  lemma IndexInjective(w: int, x: int, y: int, u: int, v: int)
    requires 0 <= x < w && 0 <= u < w && 0 <= y && 0 <= v
    requires x != u || y != v
    ensures y * w + x != v * w + u
  {
    if y < v {
      MulMonotone(y + 1, v, w);
      MulSucc(y, w);
    } else if v < y {
      MulMonotone(v + 1, y, w);
      MulSucc(v, w);
    }
  }

  /** Distinct in-bounds pixels own disjoint four-byte groups. */
  lemma OffsetsDisjoint(b: Bitmap, x: int, y: int, u: int, v: int)
    requires Valid(b) && InBounds(b, x, y) && InBounds(b, u, v)
    requires x != u || y != v
    ensures Offset(b, x, y) + 4 <= Offset(b, u, v) || Offset(b, u, v) + 4 <= Offset(b, x, y)
  {
    IndexInjective(b.width, x, y, u, v);
  }

  /** The colour stored at an in-bounds pixel. */
  function PixelAt(b: Bitmap, x: int, y: int): Color
    requires Valid(b) && InBounds(b, x, y)
  {
    OffsetInRange(b, x, y);
    var o := Offset(b, x, y);
    Color(b.data[o], b.data[o + 1], b.data[o + 2], b.data[o + 3])
  }

  /** `bitmap_create`: a zero-filled buffer of `width*height*4` bytes. */
  method Create(width: int, height: int) returns (b: Bitmap)
    requires 0 <= width && 0 <= height && width * height * 4 <= MaxInt
    ensures Valid(b) && b.width == width && b.height == height
    ensures b.size == width * height * 4
    ensures forall i :: 0 <= i < |b.data| ==> b.data[i] == 0
    ensures forall x, y :: InBounds(b, x, y) ==> PixelAt(b, x, y) == Transparent
  {
    var size := width * height * 4;
    var data: seq<byte> := [];
    var i := 0;
    while i < size
      invariant 0 <= i <= size
      invariant |data| == i
      invariant forall j :: 0 <= j < i ==> data[j] == 0
    {
      data := data + [0];
      i := i + 1;
    }
    b := Bitmap(data, width, height, size);
    forall x, y | InBounds(b, x, y)
      ensures PixelAt(b, x, y) == Transparent
    {
      OffsetInRange(b, x, y);
    }
  }

  /** What `bitmap_get_pixel` reports: success, and the value left in `*color`. */
  datatype Fetched = Fetched(ok: bool, color: Color)

  /**
   `bitmap_get_pixel` with `*color` holding `color` on entry: an in-bounds read copies
   the pixel's four bytes into the colour; an out-of-bounds one fails and leaves the
   colour as it was.
   */
  function GetPixel(b: Bitmap, x: int, y: int, color: Color): (r: Fetched)
    requires Valid(b)
    ensures r.ok <==> InBounds(b, x, y)
    ensures !r.ok ==> r.color == color
    ensures r.ok ==> 0 <= Offset(b, x, y) && Offset(b, x, y) + 4 <= |b.data|
    ensures r.ok ==> forall k :: 0 <= k < 4 ==> Channel(r.color, k) == b.data[Offset(b, x, y) + k]
  {
    var w := b.width;
    var h := b.height;
    if x >= 0 && x < w && y >= 0 && y < h then
      OffsetInRange(b, x, y);
      Fetched(true, Color(b.data[(y * w + x) * 4],
                          b.data[(y * w + x) * 4 + 1],
                          b.data[(y * w + x) * 4 + 2],
                          b.data[(y * w + x) * 4 + 3]))
    else
      Fetched(false, color)
  }

  /** A successful read yields the pixel's colour. */
  lemma GetPixelReadsPixel(b: Bitmap, x: int, y: int, color: Color)
    requires Valid(b)
    ensures InBounds(b, x, y) ==> GetPixel(b, x, y, color) == Fetched(true, PixelAt(b, x, y))
  {
    if InBounds(b, x, y) {
      var r := GetPixel(b, x, y, color);
      assert Channel(r.color, 0) == Channel(PixelAt(b, x, y), 0);
      assert Channel(r.color, 1) == Channel(PixelAt(b, x, y), 1);
      assert Channel(r.color, 2) == Channel(PixelAt(b, x, y), 2);
      assert Channel(r.color, 3) == Channel(PixelAt(b, x, y), 3);
    }
  }

  /** What `bitmap_draw_pixel` reports: success, and the bitmap afterwards. */
  datatype Drawn = Drawn(ok: bool, bitmap: Bitmap)

  /**
   `bitmap_draw_pixel`: an in-bounds write overwrites exactly the pixel's four bytes;
   an out-of-bounds one fails and writes nothing.
   */
  function DrawPixel(b: Bitmap, x: int, y: int, c: Color): (r: Drawn)
    requires Valid(b)
    ensures Valid(r.bitmap) && SameShape(b, r.bitmap)
    ensures r.ok <==> InBounds(b, x, y)
    ensures !r.ok ==> r.bitmap == b
    ensures r.ok ==> 0 <= Offset(b, x, y) && Offset(b, x, y) + 4 <= |b.data|
    ensures r.ok ==> forall i :: 0 <= i < |b.data| ==>
      r.bitmap.data[i] == if Offset(b, x, y) <= i < Offset(b, x, y) + 4
                          then Channel(c, i - Offset(b, x, y)) else b.data[i]
    ensures forall u, v :: InBounds(b, u, v) ==>
      PixelAt(r.bitmap, u, v) == if u == x && v == y then c else PixelAt(b, u, v)
  {
    var w := b.width;
    var h := b.height;
    if x >= 0 && x < w && y >= 0 && y < h then
      OffsetInRange(b, x, y);
      var o := (y * w + x) * 4;
      var nb := b.(data := b.data[o := c.r][o + 1 := c.g][o + 2 := c.b][o + 3 := c.a]);
      WriteFrame(b, x, y, c, nb);
      Drawn(true, nb)
    else
      Drawn(false, b)
  }

  /** Pixel-level reading of a four-byte write: the written pixel reads back, no other changes. */
  lemma WriteFrame(b: Bitmap, x: int, y: int, c: Color, nb: Bitmap)
    requires Valid(b) && InBounds(b, x, y)
    requires 0 <= Offset(b, x, y) && Offset(b, x, y) + 4 <= |b.data|
    requires nb == b.(data := b.data[Offset(b, x, y) := c.r][Offset(b, x, y) + 1 := c.g]
                                    [Offset(b, x, y) + 2 := c.b][Offset(b, x, y) + 3 := c.a])
    ensures Valid(nb)
    ensures forall u, v :: InBounds(b, u, v) ==>
      PixelAt(nb, u, v) == if u == x && v == y then c else PixelAt(b, u, v)
  {
    forall u, v | InBounds(b, u, v)
      ensures PixelAt(nb, u, v) == if u == x && v == y then c else PixelAt(b, u, v)
    {
      OffsetInRange(b, u, v);
      if u != x || v != y {
        OffsetsDisjoint(b, x, y, u, v);
      }
    }
  }

  /** Drawing then reading the same in-bounds pixel returns the drawn colour. */
  lemma GetAfterDraw(b: Bitmap, x: int, y: int, c: Color, color: Color)
    requires Valid(b) && InBounds(b, x, y)
    ensures GetPixel(DrawPixel(b, x, y, c).bitmap, x, y, color) == Fetched(true, c)
  {
    GetPixelReadsPixel(DrawPixel(b, x, y, c).bitmap, x, y, color);
  }

  /** Drawing a pixel leaves every other pixel's reading, and every out-of-bounds reading, as it was. */
  lemma GetAfterDrawElsewhere(b: Bitmap, x: int, y: int, c: Color, u: int, v: int, color: Color)
    requires Valid(b)
    requires x != u || y != v
    ensures GetPixel(DrawPixel(b, x, y, c).bitmap, u, v, color) == GetPixel(b, u, v, color)
  {
    if InBounds(b, u, v) {
      GetPixelReadsPixel(DrawPixel(b, x, y, c).bitmap, u, v, color);
      GetPixelReadsPixel(b, u, v, color);
    }
  }

  /**
   r is b with the in-bounds pixels of s painted c: those read c, all others read as
   they do in b.
   */
  ghost predicate Repainted(b: Bitmap, r: Bitmap, s: set<Point>, c: Color)
    requires Valid(b)
  {
    && Valid(r)
    && SameShape(b, r)
    && forall u, v :: InBounds(b, u, v) ==>
         PixelAt(r, u, v) == if Point(u, v) in s then c else PixelAt(b, u, v)
  }

  lemma RepaintedNothing(b: Bitmap, c: Color)
    requires Valid(b)
    ensures Repainted(b, b, {}, c)
  {
  }

  /** Drawing one more pixel in colour c extends the repainted set by that pixel. */
  lemma RepaintedStep(b: Bitmap, r: Bitmap, s: set<Point>, c: Color, x: int, y: int)
    requires Valid(b) && Repainted(b, r, s, c)
    ensures Repainted(b, DrawPixel(r, x, y, c).bitmap, s + {Point(x, y)}, c)
  {
  }

  /** A pixel a repaint changed now has colour c and belongs to the repainted set. */
  lemma RepaintedChanges(b: Bitmap, r: Bitmap, s: set<Point>, c: Color)
    requires Valid(b) && Repainted(b, r, s, c)
    ensures forall u, v :: InBounds(b, u, v) && PixelAt(r, u, v) != PixelAt(b, u, v) ==>
      PixelAt(r, u, v) == c && Point(u, v) in s
  {
  }
}
