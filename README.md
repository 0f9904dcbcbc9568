# Mandelbrot set renderer (OpenMP) — Dafny model

The program renders the Mandelbrot set into a 640 x 480 grayscale image of
escape times and saves it as a plain ("P2") PGM file. Three parts of it are
modelled and proved here.

- **`cal_pixel`** (module `Escape`). It runs z <- z^2 + c from z = 0 on the
  real and imaginary parts, as a do-while loop. The loop stops once the
  squared length of the z that a pass started from reaches 4, or once the
  pass count reaches MAX_ITER = 255. `CalPixel` keeps the loop and its
  variables. It is proved equal to `EscapeCount`, the unique count that
  `IsEscapeCount` describes: the least n >= 1 with |z_{n-1}|^2 >= 4,
  capped at MAX_ITER.
- **The grid fill** of `main` (module `Grid`). Pixel (i, j) maps to the
  point ((j - W/2) * 4 / W, (i - H/2) * 4 / H), and `cal_pixel` of that
  point is stored in `image[i][j]`, an `array2<int>`. The OpenMP loop
  hands out rows one at a time in an order fixed at run time. Here an order
  is a sequence of row claims that names every row, possibly more than
  once. Whatever the order, the array ends up equal to `Rendered()`.
- **`save_pgm`** (module `Pgm`, with decimal formatting and tokenising in
  `Text`). `SavePgm` builds, character for character, the text the
  `fprintf` calls write:
  - the header "P2\n", "640 480\n" and "255\n";
  - then one line per row, each value in decimal followed by one blank.

  A plain-PGM reader, `ReadPgm`, over whitespace-separated tokens undoes
  the writer. Writing and then reading gives back the dimensions, the
  maximum value 255 and the image itself. Every count is at most 255, so
  every sample is within the declared maximum 255.
- **`main`** (module `Program`). It runs ten trials of the fill over the
  same image, each with its own row order, then saves the image. Whatever
  the orders, and whatever the uninitialised image held before, the saved
  text is `PgmText(Rendered())`.

`double` is modelled as exact arithmetic on `real` (see "## Left out" for
what this leaves open).

Three consequences of the code are worth stating:

- **The stopping test.** The loop tests `lengthsq`, the squared length of
  z *before* the pass's update. So the count is the least n with
  |z_{n-1}|^2 >= 4, and it is never below 2, because the first pass tests
  z_0 = 0.
- **Far points.** A point far outside the set, such as (10, 10), gets 2
  (`Escape.FarPointCount`).
- **The symmetry.** Row H/2 maps to the real axis, so the mapping mirrors
  row i onto row H - i, and `grid[i][j] == grid[H-i][j]` for 1 <= i < H
  (`Grid.MirrorRows`). Row 0 (imaginary part -2) has no mirror row. Rows i
  and H - 1 - i are not mirror images: in column 320, row 0 holds 2 and
  row H - 1 holds 3 (`Grid.RowZeroUnmirrored`).

## Model

| member | source | states |
|---|---|---|
| Escape.CalPixel | mandelbrotset_openmp.c:13-27 | the do-while loop returns the count IsEscapeCount describes, so it equals EscapeCount(c) |
| Escape.EscapeCount | mandelbrotset_openmp.c:17-26 | lies in [1, MAX_ITER] and is at least 2. Unless capped at MAX_ITER, the z tested by the last pass has squared length >= 4, and no earlier pass's z does |
| Escape.Step | mandelbrotset_openmp.c:19-22 | one pass of the recurrence on the parts: (re^2 - im^2 + c.re, 2 re im + c.im). Its properties are stated by Escape.CalPixel (via Escape.PassIsStep) and Escape.OrbitConj |
| Escape.Orbit | mandelbrotset_openmp.c:18-25 | z_k of c, from z_0 = 0, one Step per pass. Escape.OrbitConj and Escape.OriginCount state its properties, and CalPixel's loop invariant ties it to the loop's variables |
| Escape.CountFrom | mandelbrotset_openmp.c:18-25 | if no pass before n stopped the loop, the loop stops at a count >= n that satisfies IsEscapeCount |
| Escape.EscapeCountUnique | mandelbrotset_openmp.c:18-26 | exactly one count satisfies IsEscapeCount: the one EscapeCount gives |
| Escape.OrbitConj | mandelbrotset_openmp.c:19-22 | the orbit of the conjugate point is the conjugate of the orbit |
| Escape.ConjugateSymmetry | mandelbrotset_openmp.c:18-25 | a point and its mirror image in the real axis get the same count |
| Escape.OriginCount | mandelbrotset_openmp.c:13-27 | the origin never escapes and gets MAX_ITER = 255 |
| Escape.CountTwo | mandelbrotset_openmp.c:18-25 | the count is 2 if and only if the squared length of c is at least 4 |
| Escape.CountThree | mandelbrotset_openmp.c:18-25 | the count is 3 if and only if the squared length of c is below 4 and that of c^2 + c is at least 4 |
| Escape.FarPointCount | mandelbrotset_openmp.c:18-25 | the point (10, 10) gets the count 2 |
| Grid.PixelCoord | mandelbrotset_openmp.c:71-72 | the point ((j - W/2) * 4 / W, (i - H/2) * 4 / H) of pixel (i, j). Grid.KnownCoords and Grid.MirrorRows state its properties |
| Grid.Cell | mandelbrotset_openmp.c:73 | the count cal_pixel stores for pixel (i, j). Grid.FillRow states that the fill stores it |
| Grid.Rendered | mandelbrotset_openmp.c:69-75 | the image after a fill is HEIGHT rows of WIDTH counts, each in [2, 255] |
| Grid.FillRow | mandelbrotset_openmp.c:70-74 | every cell of row i holds cal_pixel of its point, and every other row is unchanged |
| Grid.FillGrid | mandelbrotset_openmp.c:69-75 | filling the rows in increasing order leaves the array equal to Rendered() |
| Grid.FillGridScheduled | mandelbrotset_openmp.c:68-75 | filling rows in any claim order that names every row leaves the array equal to Rendered() |
| Grid.FilledIsRendered | mandelbrotset_openmp.c:69-75 | an array whose every cell holds its pixel's count is the rendered image |
| Grid.KnownCoords | mandelbrotset_openmp.c:71-72 | pixel (240, 320) maps to (0, 0), pixel (0, 0) maps to (-2, -2), pixel (0, 320) maps to (0, -2), and pixel (479, 320) maps to (0, 239/120), all in exact arithmetic. The first three are exact doubles, and the last is rounded in `double` |
| Grid.CentrePixel | mandelbrotset_openmp.c:71-73 | the centre pixel (240, 320) holds MAX_ITER |
| Grid.CornerPixel | mandelbrotset_openmp.c:71-73 | the corner pixel (0, 0) holds 2 |
| Grid.MirrorRows | mandelbrotset_openmp.c:71-73 | for 1 <= i < HEIGHT, row HEIGHT - i maps to the conjugates of row i's points and holds the same counts |
| Grid.LastRowCentreCount | mandelbrotset_openmp.c:72-73 | the point (0, 239/120) of the last row, in column 320, gets the count 3 |
| Grid.RowZeroUnmirrored | mandelbrotset_openmp.c:71-73 | in column 320, row 0 holds 2 and row HEIGHT - 1 holds 3, so rows i and HEIGHT - 1 - i are not mirror images |
| Text.Digits | mandelbrotset_openmp.c:40 | the decimal digits of a non-negative number, most significant first. Text.DigitsWellFormed and Text.DigitsRoundTrip state its properties |
| Text.Decimal | mandelbrotset_openmp.c:40 | `%d`: an optional minus sign, then the digits of the magnitude. Text.DecimalIsWord and Text.DecimalRoundTrip state its properties |
| Text.DigitsWellFormed | mandelbrotset_openmp.c:40 | `%d` of a non-negative number is at least one digit, only digits, and has no leading zero |
| Text.DecimalIsWord | mandelbrotset_openmp.c:40 | `%d` writes a non-empty word without whitespace |
| Text.DigitsRoundTrip | mandelbrotset_openmp.c:40 | the digits written for n denote n |
| Text.DecimalRoundTrip | mandelbrotset_openmp.c:40 | reading back what `%d` wrote gives the number written |
| Pgm.Header | mandelbrotset_openmp.c:33-35 | the three header writes: "P2\n", `"%d %d\n"` of WIDTH and HEIGHT, "255\n". Pgm.HeaderText states what it is |
| Pgm.Spaced | mandelbrotset_openmp.c:38-41 | a row's values, each followed by one blank. Pgm.SpacedOneLine and Pgm.TokensOfSpaced state its properties |
| Pgm.Rows | mandelbrotset_openmp.c:37-43 | every row spaced and then ended by a newline. Pgm.TokensOfRows and Pgm.LinesOfRows state its properties |
| Pgm.PgmText | mandelbrotset_openmp.c:33-43 | the header followed by the rows of the image's `%d` texts. Pgm.SavePgm builds it, and Pgm.LinesOfPgm, Pgm.TokensOfPgm and Pgm.PgmRoundTrip state its properties |
| Pgm.SavePgm | mandelbrotset_openmp.c:29-45 | the text written by the header calls and the nested row/column loop is PgmText of the array's contents |
| Pgm.HeaderNumbers | mandelbrotset_openmp.c:34-35 | the header's numbers are written as "640", "480" and "255" |
| Pgm.HeaderText | mandelbrotset_openmp.c:33-35 | the header is exactly "P2\n640 480\n255\n" |
| Pgm.SpacedOneLine | mandelbrotset_openmp.c:38-41 | a row's values, each followed by a blank, contain no newline |
| Pgm.TokensOfSpaced | mandelbrotset_openmp.c:38-41 | words each followed by a blank read back as those words, in order |
| Pgm.TokensOfRows | mandelbrotset_openmp.c:37-43 | rows of words, each ended by a newline, read back as all the words, row after row |
| Pgm.LinesOfRows | mandelbrotset_openmp.c:37-43 | each row written is exactly one line |
| Pgm.LinesOfPgm | mandelbrotset_openmp.c:33-43 | the file has 3 + HEIGHT lines. The first three are "P2", "640 480" and "255", and line 3 + i reads as row i's values in column order |
| Pgm.TokensOfPgm | mandelbrotset_openmp.c:33-43 | the file's tokens are "P2", "640", "480", "255", then the decimals of every cell, row by row |
| Pgm.PgmRoundTrip | mandelbrotset_openmp.c:29-45 | for any grid of the image's shape, a plain-PGM reader gets back width 640, height 480, maximum 255 and the grid itself |
| Pgm.RenderedFileValid | mandelbrotset_openmp.c:33-43 | the file saved for the rendered image reads back as that image, and no sample exceeds the declared maximum 255 |
| Program.Run | mandelbrotset_openmp.c:47-83 | after the ten trials, whatever their row orders and whatever the image held, the image is Rendered() and the saved text is PgmText(Rendered()) |

## Left out

- OpenMP threads. Under `schedule(dynamic, 1)` each thread claims one
  whole row at a time. The model fills the claimed rows one after another,
  in claim order. It does not model different rows being computed at the
  same time by different threads. Nor does it model the absence of races
  that follows from each row being written by one thread only.
- Timing and console output. `omp_get_wtime`, `total_time`, `AVG` and the
  `printf` messages (lines 56, 77-82 and 84) compute nothing that reaches
  the image or the file.
- The file handle. `fopen`, `fclose` and the file name are not modelled,
  and neither is a failed `fopen`, which the source does not check. Only
  the characters passed to `fprintf` are modelled.
- Floating point. `double` is modelled as exact `real`, and the program's
  count can differ from the model's for two reasons:
  - The coordinates are rounded. Lines 71-72 divide by 640 and 480, and
    most quotients are not exact doubles. For example, row 479's imaginary
    part is the double nearest 239/120, not 239/120, the value
    `Grid.KnownCoords` states.
  - Rounding errors grow along the orbit. Each pass of lines 19-22 can
    multiply the error by up to |2z|. On the long orbits of pixels near
    the set's boundary, the double orbit need not stay near the exact one,
    even when the exact orbit never comes near the circle of radius 2.

  Some proved facts carry over to `double`, by the following argument; the
  argument itself is not proved here.
  - Pixels (240, 320), (0, 0) and (0, 320) map to (0, 0), (-2, -2) and
    (0, -2), and these values are exact doubles. Their counts (255, 2 and
    2) are the double counts too.
  - The count 3 at pixel (479, 320) has wide margins. There |c|^2 is near
    3.967, below 4, and |c^2 + c|^2 is near 19.7. An error of a few units
    in the last place cannot change either test.
  - `Grid.MirrorRows` holds for `double` as well. Rows i and 480 - i give
    `i - 240.0` values that are exact negatives of each other. IEEE
    round-to-nearest is symmetric under negation, so the two imaginary
    parts are exact negatives, and so is every z_imag of the two orbits,
    while every z_real agrees.
- Integer width. Counts are at most 255 and the header numbers are
  constants, so 32-bit `int` never overflows here. Cells are modelled as
  unbounded `int`.
- `Pgm.ReadPgm` is not part of the source. It is a plain-PGM reader that
  undoes the writer. It does not handle `#` comments, which the writer never
  emits. It does not enforce the 70-character line limit of plain PGM,
  and the writer's lines of 640 values do exceed that limit.

