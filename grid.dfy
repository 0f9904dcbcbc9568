/**
 The grid fill of `main`: every pixel (row i, column j) of the
 HEIGHT x WIDTH image is mapped to a point of the plane by a fixed affine
 transform centred on the origin, and `cal_pixel` of that point is stored
 in `image[i][j]`. The rows are handed out to threads one at a time, in an
 order fixed only at run time; here a schedule is a sequence of row
 indices, and the rows are filled one after another in that order.
 */
module Grid {
  import opened Escape

  const Width: int := 640
  const Height: int := 480

  /** The point pixel (i, j) stands for; rows run along the imaginary axis. */
  function PixelCoord(i: int, j: int): Complex
  {
    Complex((j as real - Width as real / 2.0) * 4.0 / Width as real,
            (i as real - Height as real / 2.0) * 4.0 / Height as real)
  }

  /** What the fill stores in cell (i, j). */
  function Cell(i: int, j: int): int
  {
    EscapeCount(PixelCoord(i, j))
  }

  /** The image after a completed fill, row by row. */
  function Rendered(): (g: seq<seq<int>>)
    ensures IsGrid(g)
    ensures forall i, j :: 0 <= i < Height && 0 <= j < Width ==> 2 <= g[i][j] <= MaxIter
  {
    seq(Height, i => seq(Width, j => Cell(i, j)))
  }

  /** A grid of the image's shape, HEIGHT rows of WIDTH cells. */
  ghost predicate IsGrid(g: seq<seq<int>>)
  {
    |g| == Height && forall i :: 0 <= i < Height ==> |g[i]| == Width
  }

  /** The contents of a two-dimensional array, row by row. */
  ghost function GridOf(image: array2<int>): (g: seq<seq<int>>)
    reads image
    ensures |g| == image.Length0
    ensures forall i :: 0 <= i < |g| ==> |g[i]| == image.Length1
    ensures forall i, j :: 0 <= i < image.Length0 && 0 <= j < image.Length1 ==> g[i][j] == image[i, j]
  {
    seq(image.Length0, i reads image => seq(image.Length1, j reads image =>
      if 0 <= i < image.Length0 && 0 <= j < image.Length1 then image[i, j] else 0))
  }

  /** The inner loop: fills row i, and no other cell. */
  method FillRow(image: array2<int>, i: int)
    requires image.Length0 == Height && image.Length1 == Width
    requires 0 <= i < Height
    modifies image
    ensures forall j :: 0 <= j < Width ==> image[i, j] == Cell(i, j)
    ensures forall r, j :: 0 <= r < Height && r != i && 0 <= j < Width ==> image[r, j] == old(image[r, j])
  {
    for j := 0 to Width
      invariant forall s :: 0 <= s < j ==> image[i, s] == Cell(i, s)
      invariant forall r, s :: 0 <= r < Height && 0 <= s < Width && (r != i || j <= s) ==>
                  image[r, s] == old(image[r, s])
    {
      var c := PixelCoord(i, j);
      var n := CalPixel(c);
      image[i, j] := n;
    }
  }

  /** The row loop run by one thread, rows in increasing order. */
  method FillGrid(image: array2<int>)
    requires image.Length0 == Height && image.Length1 == Width
    modifies image
    ensures GridOf(image) == Rendered()
  {
    for i := 0 to Height
      invariant forall r, j :: 0 <= r < i && 0 <= j < Width ==> image[r, j] == Cell(r, j)
    {
      FillRow(image, i);
    }
    FilledIsRendered(image);
  }

  /** A schedule hands out rows of the image, and hands out every row. */
  predicate CoversRows(order: seq<int>)
  {
    && (forall k :: 0 <= k < |order| ==> 0 <= order[k] < Height)
    && (forall r :: 0 <= r < Height ==> r in order)
  }

  /**
   The row loop under a dynamic schedule: the rows are filled in the order
   they are claimed. Whatever the order, the image ends up the same.
   */
  method FillGridScheduled(image: array2<int>, order: seq<int>)
    requires image.Length0 == Height && image.Length1 == Width
    requires CoversRows(order)
    modifies image
    ensures GridOf(image) == Rendered()
  {
    for k := 0 to |order|
      invariant forall r, j :: 0 <= r < Height && r in order[..k] && 0 <= j < Width ==> image[r, j] == Cell(r, j)
      invariant forall r, j :: 0 <= r < Height && r !in order[..k] && 0 <= j < Width ==> image[r, j] == old(image[r, j])
    {
      assert order[..k + 1] == order[..k] + [order[k]];
      FillRow(image, order[k]);
    }
    assert order[..|order|] == order;
    FilledIsRendered(image);
  }

  /** An array whose every cell holds its Cell value holds the rendered image. */
  lemma FilledIsRendered(image: array2<int>)
    requires image.Length0 == Height && image.Length1 == Width
    requires forall r, j :: 0 <= r < Height && 0 <= j < Width ==> image[r, j] == Cell(r, j)
    ensures GridOf(image) == Rendered()
  {
    var g, h := GridOf(image), Rendered();
    forall r | 0 <= r < Height
      ensures g[r] == h[r]
    {
      assert forall j :: 0 <= j < Width ==> g[r][j] == h[r][j];
    }
  }

  /** The points of the pixels named below. */
  lemma KnownCoords()
    ensures PixelCoord(240, 320) == Origin
    ensures PixelCoord(0, 0) == Complex(-2.0, -2.0)
    ensures PixelCoord(0, 320) == Complex(0.0, -2.0)
    ensures PixelCoord(Height - 1, 320) == Complex(0.0, 239.0 / 120.0)
  {
  }

  /** The centre pixel is the origin, so it holds MAX_ITER. */
  lemma CentrePixel()
    ensures Rendered()[240][320] == MaxIter
  {
    assert Rendered()[240][320] == EscapeCount(Origin) by {
      KnownCoords();
    }
    OriginCount();
  }

  /** The top-left pixel is (-2, -2), outside the circle of radius 2, so it holds 2. */
  lemma CornerPixel()
    ensures Rendered()[0][0] == 2
  {
    assert Rendered()[0][0] == EscapeCount(Complex(-2.0, -2.0)) by {
      KnownCoords();
    }
    CountTwo(Complex(-2.0, -2.0));
  }

  /** Rows i and HEIGHT - i are mirror images of each other in the real axis. */
  lemma MirrorRows(i: int, j: int)
    requires 1 <= i < Height && 0 <= j < Width
    ensures PixelCoord(Height - i, j) == Conj(PixelCoord(i, j))
    ensures Rendered()[i][j] == Rendered()[Height - i][j]
  {
    ConjugateSymmetry(PixelCoord(i, j));
  }

  /** The point of the last row in column 320 takes three passes. */
  lemma LastRowCentreCount()
    ensures EscapeCount(Complex(0.0, 239.0 / 120.0)) == 3
  {
    var c := Complex(0.0, 239.0 / 120.0);
    assert LengthSq(c) == 57121.0 / 14400.0;
    var z2 := Complex(-57121.0 / 14400.0, 239.0 / 120.0);
    assert Step(c, c) == z2;
    assert LengthSq(z2) >= 4.0;
    CountThree(c);
  }

  /**
   Row 0 has no mirror row: it maps to imaginary part -2, while the last
   row maps to 239/120, and in column 320 the two counts differ.
   */
  lemma RowZeroUnmirrored()
    ensures Rendered()[0][320] == 2
    ensures Rendered()[Height - 1][320] == 3
  {
    KnownCoords();
    CountTwo(Complex(0.0, -2.0));
    LastRowCentreCount();
    assert Rendered()[0][320] == Cell(0, 320);
    assert Rendered()[Height - 1][320] == Cell(Height - 1, 320);
  }
}
