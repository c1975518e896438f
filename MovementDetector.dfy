/**
  The motion-detection algorithm: a per-pixel, per-channel absolute difference
  with noise suppression, and the fraction of pixels that survive it.

  A bitmap is an `array2<Pixel>` indexed `[x, y]`, so that `Length0` is its
  width and `Length1` its height. The specification is stated on the value
  `Cells(a)` of a bitmap: a sequence of columns, `Cells(a)[x][y] == a[x, y]`.
*/
module Detection {
  import opened Common

  /** A colour as the algorithm sees it: its red, green and blue channels. */
  datatype Pixel = Pixel(r: byte, g: byte, b: byte)

  const Black := Pixel(0, 0, 0)
  const White := Pixel(255, 255, 255)

  /**
    The bound below which a channel difference counts as noise. The source
    compares against this literal and not against the `threshold` argument
    it passes down, nor against the detector's `MovementThreshold`.
  */
  const NoiseFloor: int := 64

  const DefaultMovementThreshold: byte := 64
  const DefaultDetectionPercentMin: real := 0.1

  /** The exceptions the detector's public operations can raise. */
  datatype DetectorError =
    | SizeMismatch      // HasMovement: the two images differ in width or height
    | PixelOutOfRange   // GetPixel outside the previous image

  // ---------------------------------------------------------------------------
  // Pixels

  function Abs(n: int): nat
  {
    if n < 0 then -n else n
  }

  /** One channel of the movement image: the absolute difference, or 0 when it is below the noise floor. */
  function ChannelDelta(prev: byte, curr: byte): (d: byte)
    ensures d == 0 || NoiseFloor <= d
  {
    var diff := Abs(prev - curr);
    if diff < NoiseFloor then 0 else diff
  }

  /** The movement-image pixel for one position; the channels are independent of each other. */
  function Delta(prev: Pixel, curr: Pixel): (d: Pixel)
    ensures d.r == 0 || (NoiseFloor <= d.r && d.r == Abs(prev.r - curr.r))
    ensures d.g == 0 || (NoiseFloor <= d.g && d.g == Abs(prev.g - curr.g))
    ensures d.b == 0 || (NoiseFloor <= d.b && d.b == Abs(prev.b - curr.b))
  {
    Pixel(ChannelDelta(prev.r, curr.r), ChannelDelta(prev.g, curr.g), ChannelDelta(prev.b, curr.b))
  }

  /** A movement pixel is black exactly when no channel differs by the noise floor or more. */
  lemma DeltaIsBlackIff(prev: Pixel, curr: Pixel)
    ensures Delta(prev, curr) == Black <==>
      Abs(prev.r - curr.r) < NoiseFloor && Abs(prev.g - curr.g) < NoiseFloor && Abs(prev.b - curr.b) < NoiseFloor
  {
  }

  // ---------------------------------------------------------------------------
  // Grids: the value of a bitmap

  /** A bitmap's pixels as a sequence of columns. */
  type Grid = seq<seq<Pixel>>

  /** A non-empty rectangle: every column has the height of the first, and both sizes are positive. */
  ghost predicate IsGrid(g: Grid)
  {
    |g| > 0 && |g[0]| > 0 && forall x :: 0 <= x < |g| ==> |g[x]| == |g[0]|
  }

  function Width(g: Grid): nat
  {
    |g|
  }

  function Height(g: Grid): nat
  {
    if g == [] then 0 else |g[0]|
  }

  /** A .NET Bitmap always has a positive width and height. */
  predicate IsBitmap(a: array2<Pixel>)
  {
    a.Length0 > 0 && a.Length1 > 0
  }

  ghost function Column(a: array2<Pixel>, x: int): (c: seq<Pixel>)
    reads a
    requires 0 <= x < a.Length0
    ensures |c| == a.Length1 && forall y :: 0 <= y < a.Length1 ==> c[y] == a[x, y]
  {
    seq(a.Length1, y reads a requires 0 <= y < a.Length1 => a[x, y])
  }

  /** The value of a bitmap: `Cells(a)[x][y] == a[x, y]`. */
  ghost function Cells(a: array2<Pixel>): (g: Grid)
    reads a
    ensures |g| == a.Length0 && forall x :: 0 <= x < |g| ==> g[x] == Column(a, x)
    ensures Width(g) == a.Length0 && Height(g) == (if a.Length0 == 0 then 0 else a.Length1)
    ensures IsBitmap(a) ==> IsGrid(g)
  {
    seq(a.Length0, x reads a requires 0 <= x < a.Length0 => Column(a, x))
  }

  /** Every position of `curr` is also a position of `prev`, so no `GetPixel` on `prev` is out of range. */
  ghost predicate Covers(prev: Grid, curr: Grid)
  {
    Width(curr) <= Width(prev) && Height(curr) <= Height(prev)
  }

  ghost predicate SameSize(prev: Grid, curr: Grid)
  {
    Width(prev) == Width(curr) && Height(prev) == Height(curr)
  }

  /** The movement image: the size of `curr`, each pixel the delta of the two pixels at that position. */
  ghost function MovementImage(prev: Grid, curr: Grid): (m: Grid)
    requires IsGrid(prev) && IsGrid(curr) && Covers(prev, curr)
    ensures IsGrid(m) && SameSize(m, curr)
  {
    seq(|curr|, x requires 0 <= x < |curr| =>
      seq(|curr[0]|, y requires 0 <= y < |curr[0]| => Delta(prev[x][y], curr[x][y])))
  }

  /** Number of non-black pixels in one column. */
  function ColumnCount(c: seq<Pixel>): nat
  {
    if c == [] then 0 else ColumnCount(c[..|c| - 1]) + (if c[|c| - 1] != Black then 1 else 0)
  }

  /** Number of non-black pixels in a grid, column by column as the source counts them. */
  function MovingCount(g: Grid): nat
  {
    if g == [] then 0 else MovingCount(g[..|g| - 1]) + ColumnCount(g[|g| - 1])
  }

  /** The fraction of pixels of a movement image that are not black. */
  ghost function MovementPercent(m: Grid): real
    requires IsGrid(m)
  {
    MovingCount(m) as real / (Width(m) * Height(m)) as real
  }

  // ---------------------------------------------------------------------------
  // The public operations on values

  /**
    `GetMovementPercent(prev, curr)`: no size check; a previous image smaller
    than the current one makes `GetPixel` fail, a larger one is compared on
    the current image's area only.
  */
  ghost function PercentBetween(prev: Grid, curr: Grid): Result<real, DetectorError>
    requires IsGrid(prev) && IsGrid(curr)
  {
    if Covers(prev, curr) then Success(MovementPercent(MovementImage(prev, curr)))
    else Failure(PixelOutOfRange)
  }

  /** `HasMovement(prev, curr)`: sizes must match; then the percent is compared inclusively with the minimum. */
  ghost function MovementBetween(prev: Grid, curr: Grid, detectionPercentMin: real): Result<bool, DetectorError>
    requires IsGrid(prev) && IsGrid(curr)
  {
    if !SameSize(prev, curr) then Failure(SizeMismatch)
    else Success(MovementPercent(MovementImage(prev, curr)) >= detectionPercentMin)
  }

  // ---------------------------------------------------------------------------
  // Properties of counting

  lemma {:induction false} ColumnCountBounds(c: seq<Pixel>)
    ensures ColumnCount(c) <= |c|
    ensures ColumnCount(c) == 0 <==> forall y :: 0 <= y < |c| ==> c[y] == Black
  {
    if c != [] {
      var init := c[..|c| - 1];
      ColumnCountBounds(init);
      assert forall y :: 0 <= y < |init| ==> init[y] == c[y];
    }
  }

  /** The count never exceeds the number of pixels. */
  lemma {:induction false} MovingCountAtMost(g: Grid, h: nat)
    requires forall x :: 0 <= x < |g| ==> |g[x]| == h
    ensures MovingCount(g) <= |g| * h
  {
    if g != [] {
      var init := g[..|g| - 1];
      MovingCountAtMost(init, h);
      ColumnCountBounds(g[|g| - 1]);
      assert |init| * h + h == |g| * h;
    }
  }

  /** The count is zero exactly when the whole grid is black. */
  lemma {:induction false} MovingCountZeroIff(g: Grid, h: nat)
    requires forall x :: 0 <= x < |g| ==> |g[x]| == h
    ensures MovingCount(g) == 0 <==> forall x, y :: 0 <= x < |g| && 0 <= y < h ==> g[x][y] == Black
  {
    if g != [] {
      var init := g[..|g| - 1];
      MovingCountZeroIff(init, h);
      ColumnCountBounds(g[|g| - 1]);
      assert forall x :: 0 <= x < |init| ==> init[x] == g[x];
    }
  }

  lemma FractionBounds(count: nat, total: nat)
    requires count <= total && total > 0
    ensures 0.0 <= count as real / total as real <= 1.0
    ensures count as real / total as real == 0.0 <==> count == 0
  {
    var q := count as real / total as real;
    assert q * total as real == count as real;
  }

  /** The movement percent lies in [0, 1], and is 0 exactly when the movement image is all black. */
  lemma MovementPercentBounds(m: Grid)
    requires IsGrid(m)
    ensures 0.0 <= MovementPercent(m) <= 1.0
    ensures MovementPercent(m) == 0.0 <==> forall x, y :: 0 <= x < Width(m) && 0 <= y < Height(m) ==> m[x][y] == Black
  {
    var w, h := Width(m), Height(m);
    MovingCountAtMost(m, h);
    MovingCountZeroIff(m, h);
    assert w * h > 0;
    FractionBounds(MovingCount(m), w * h);
  }

  lemma MovingCountSnoc(g: Grid, x: nat)
    requires x < |g|
    ensures MovingCount(g[..x + 1]) == MovingCount(g[..x]) + ColumnCount(g[x])
  {
    assert g[..x + 1][..x] == g[..x];
  }

  // ---------------------------------------------------------------------------
  // Properties of the comparison

  /** A frame compared with itself shows no movement at all. */
  lemma SelfComparisonIsStill(g: Grid, detectionPercentMin: real)
    requires IsGrid(g)
    ensures PercentBetween(g, g) == Success(0.0)
    ensures MovementBetween(g, g, detectionPercentMin) == Success(detectionPercentMin <= 0.0)
  {
    var m := MovementImage(g, g);
    forall x, y | 0 <= x < Width(m) && 0 <= y < Height(m) ensures m[x][y] == Black {
      assert m[x][y] == Delta(g[x][y], g[x][y]);
    }
    MovementPercentBounds(m);
  }

  /** Swapping the two frames of a same-size pair changes neither the movement image nor the decision. */
  lemma ComparisonIsSymmetric(a: Grid, b: Grid, detectionPercentMin: real)
    requires IsGrid(a) && IsGrid(b) && SameSize(a, b)
    ensures MovementImage(a, b) == MovementImage(b, a)
    ensures PercentBetween(a, b) == PercentBetween(b, a)
    ensures MovementBetween(a, b, detectionPercentMin) == MovementBetween(b, a, detectionPercentMin)
  {
    var m, n := MovementImage(a, b), MovementImage(b, a);
    forall x | 0 <= x < |m| ensures m[x] == n[x] {
      forall y | 0 <= y < |m[x]| ensures m[x][y] == n[x][y] {
        assert Delta(a[x][y], b[x][y]) == Delta(b[x][y], a[x][y]);
      }
    }
  }

  /**
    On a same-size pair `HasMovement` is exactly the inclusive comparison of
    `GetMovementPercent` with the minimum, and on a pair of different sizes it
    fails while `GetMovementPercent` fails only when the previous frame is
    too small.
  */
  lemma HasMovementIsPercentAtLeastMin(prev: Grid, curr: Grid, detectionPercentMin: real)
    requires IsGrid(prev) && IsGrid(curr)
    ensures SameSize(prev, curr) ==>
      PercentBetween(prev, curr).Success? &&
      MovementBetween(prev, curr, detectionPercentMin) == Success(PercentBetween(prev, curr).value >= detectionPercentMin)
    ensures !SameSize(prev, curr) ==> MovementBetween(prev, curr, detectionPercentMin) == Failure(SizeMismatch)
    ensures !SameSize(prev, curr) ==> (PercentBetween(prev, curr).Success? <==> Covers(prev, curr))
  {
  }

  /** Each cell of the movement image keeps a channel difference of at least 64 and drops a smaller one. */
  lemma MovementImageChannels(prev: Grid, curr: Grid, x: nat, y: nat)
    requires IsGrid(prev) && IsGrid(curr) && Covers(prev, curr)
    requires x < Width(curr) && y < Height(curr)
    ensures var p := MovementImage(prev, curr)[x][y];
      && p.r == (if Abs(prev[x][y].r - curr[x][y].r) >= 64 then Abs(prev[x][y].r - curr[x][y].r) else 0)
      && p.g == (if Abs(prev[x][y].g - curr[x][y].g) >= 64 then Abs(prev[x][y].g - curr[x][y].g) else 0)
      && p.b == (if Abs(prev[x][y].b - curr[x][y].b) >= 64 then Abs(prev[x][y].b - curr[x][y].b) else 0)
  {
  }

  // ---------------------------------------------------------------------------
  // The unit tests' frames

  /** A grid of one colour; a new .NET Bitmap is black in every channel. */
  function Filled(w: nat, h: nat, p: Pixel): Grid
  {
    seq(w, _ => seq(h, _ => p))
  }

  /** The tests' current frame: 8×8 black with white at (0,0), (2,2), (3,3) and `second` at (1,1). */
  function TestFrame(second: Pixel): Grid
  {
    seq(8, x => seq(8, y => if x == y && x < 4 then (if x == 1 then second else White) else Black))
  }

  function Sum(s: seq<nat>): nat
  {
    if s == [] then 0 else s[0] + Sum(s[1..])
  }

  lemma {:induction false} SumSnoc(s: seq<nat>)
    requires s != []
    ensures Sum(s) == Sum(s[..|s| - 1]) + s[|s| - 1]
  {
    if |s| > 1 {
      SumSnoc(s[1..]);
      assert s[1..][..|s| - 2] == s[..|s| - 1][1..];
    }
  }

  lemma {:induction false} MovingCountByColumns(g: Grid, counts: seq<nat>)
    requires |counts| == |g|
    requires forall x :: 0 <= x < |g| ==> ColumnCount(g[x]) == counts[x]
    ensures MovingCount(g) == Sum(counts)
  {
    if g != [] {
      MovingCountByColumns(g[..|g| - 1], counts[..|counts| - 1]);
      SumSnoc(counts);
    }
  }

  /** A column with exactly one non-black pixel counts one. */
  lemma {:induction false} ColumnCountSingle(c: seq<Pixel>, k: nat)
    requires k < |c| && c[k] != Black
    requires forall y :: 0 <= y < |c| && y != k ==> c[y] == Black
    ensures ColumnCount(c) == 1
  {
    var init := c[..|c| - 1];
    if k == |c| - 1 {
      ColumnCountBounds(init);
    } else {
      ColumnCountSingle(init, k);
    }
  }

  /** The count of one column of the movement image between a black frame and a test frame. */
  lemma TestFrameColumn(second: Pixel, x: nat)
    requires x < 8
    ensures var m := MovementImage(Filled(8, 8, Black), TestFrame(second));
      ColumnCount(m[x]) == if x < 4 && Delta(Black, if x == 1 then second else White) != Black then 1 else 0
  {
    var m := MovementImage(Filled(8, 8, Black), TestFrame(second));
    assert forall y :: 0 <= y < 8 ==> m[x][y] == Delta(Black, TestFrame(second)[x][y]);
    if x < 4 && Delta(Black, if x == 1 then second else White) != Black {
      ColumnCountSingle(m[x], x);
    } else {
      ColumnCountBounds(m[x]);
    }
  }

  /** IsMovementPercentAccurate: four white pixels on an 8×8 black frame are 4/64 of it. */
  lemma FourWhitePixelsMove()
    ensures PercentBetween(Filled(8, 8, Black), TestFrame(White)) == Success(4.0 / 64.0)
  {
    var m := MovementImage(Filled(8, 8, Black), TestFrame(White));
    forall x | 0 <= x < 8 ensures ColumnCount(m[x]) == [1, 1, 1, 1, 0, 0, 0, 0][x] {
      TestFrameColumn(White, x);
    }
    MovingCountByColumns(m, [1, 1, 1, 1, 0, 0, 0, 0]);
    assert Sum([1, 1, 1, 1, 0, 0, 0, 0]) == 4;
    assert MovingCount(m) == 4;
    assert Width(m) * Height(m) == 64;
  }

  /** IsDetectorFilteringPixels: a (32,32,32) pixel differs from black by less than 64 and is dropped. */
  lemma DarkGreyPixelIsNoise()
    ensures PercentBetween(Filled(8, 8, Black), TestFrame(Pixel(32, 32, 32))) == Success(3.0 / 64.0)
  {
    var m := MovementImage(Filled(8, 8, Black), TestFrame(Pixel(32, 32, 32)));
    forall x | 0 <= x < 8 ensures ColumnCount(m[x]) == [1, 0, 1, 1, 0, 0, 0, 0][x] {
      TestFrameColumn(Pixel(32, 32, 32), x);
    }
    MovingCountByColumns(m, [1, 0, 1, 1, 0, 0, 0, 0]);
    assert Sum([1, 0, 1, 1, 0, 0, 0, 0]) == 3;
    assert MovingCount(m) == 3;
    assert Width(m) * Height(m) == 64;
  }

  /** IsDetectorFilteringMovement: the comparison with the minimum is inclusive. */
  lemma MinimumIsInclusive()
    ensures MovementBetween(Filled(8, 8, Black), TestFrame(White), 0.5) == Success(false)
    ensures MovementBetween(Filled(8, 8, Black), TestFrame(White), 4.0 / (8.0 * 8.0)) == Success(true)
    ensures MovementBetween(Filled(8, 8, Black), TestFrame(White), 5.0 / (8.0 * 8.0)) == Success(false)
  {
    FourWhitePixelsMove();
  }

  // ---------------------------------------------------------------------------
  // The detector

  class MovementDetector {
    var movementThreshold: byte
    var detectionPercentMin: real

    constructor (movementThreshold: byte := DefaultMovementThreshold,
                 detectionPercentMin: real := DefaultDetectionPercentMin)
      ensures this.movementThreshold == movementThreshold
      ensures this.detectionPercentMin == detectionPercentMin
    {
      this.movementThreshold := movementThreshold;
      this.detectionPercentMin := detectionPercentMin;
    }

    /** Fails on a size mismatch; otherwise compares the movement percent inclusively with the minimum. */
    method HasMovement(prevImage: array2<Pixel>, currImage: array2<Pixel>) returns (r: Result<bool, DetectorError>)
      requires IsBitmap(prevImage) && IsBitmap(currImage)
      ensures r == MovementBetween(Cells(prevImage), Cells(currImage), detectionPercentMin)
    {
      if prevImage.Length0 != currImage.Length0 || prevImage.Length1 != currImage.Length1 {
        return Failure(SizeMismatch);
      }
      var movementImage := GetMovementImage(prevImage, currImage, movementThreshold);
      // The sizes agree, so GetMovementImage cannot fail.
      var percent := MovementPercentOf(movementImage.value);
      r := Success(percent >= detectionPercentMin);
    }

    /** The movement percent between two bitmaps, with no size check of its own. */
    method GetMovementPercent(prevImage: array2<Pixel>, currImage: array2<Pixel>) returns (r: Result<real, DetectorError>)
      requires IsBitmap(prevImage) && IsBitmap(currImage)
      ensures r == PercentBetween(Cells(prevImage), Cells(currImage))
    {
      var movementImage := GetMovementImage(prevImage, currImage, movementThreshold);
      if movementImage.Failure? {
        return Failure(movementImage.error);
      }
      var percent := MovementPercentOf(movementImage.value);
      r := Success(percent);
    }

    /** The private `GetMovementPercent(movementImage)`: non-black pixels over all pixels. */
    static method MovementPercentOf(movementImage: array2<Pixel>) returns (percent: real)
      requires IsBitmap(movementImage)
      ensures percent == MovementPercent(Cells(movementImage))
    {
      var totalPixels := movementImage.Length0 * movementImage.Length1;
      var movingPixels := 0;
      ghost var g := Cells(movementImage);
      for x := 0 to movementImage.Length0
        invariant movingPixels == MovingCount(g[..x])
      {
        for y := 0 to movementImage.Length1
          invariant movingPixels == MovingCount(g[..x]) + ColumnCount(g[x][..y])
        {
          var currPixel := movementImage[x, y];
          assert g[x][..y + 1][..y] == g[x][..y];
          if currPixel != Black {
            movingPixels := movingPixels + 1;
          }
        }
        assert g[x][..movementImage.Length1] == g[x];
        MovingCountSnoc(g, x);
      }
      assert g[..movementImage.Length0] == g;
      percent := movingPixels as real / totalPixels as real;
    }

    /**
      A new bitmap of the current image's size whose every pixel is the delta
      of the two images at that position. The `threshold` argument is never
      read: the source compares against the literal 64 (`NoiseFloor`).
      Reading a position outside `prev` raises `PixelOutOfRange`.
    */
    static method GetMovementImage(prev: array2<Pixel>, curr: array2<Pixel>, threshold: byte)
      returns (r: Result<array2<Pixel>, DetectorError>)
      requires IsBitmap(prev) && IsBitmap(curr)
      ensures r.Failure? <==> !Covers(Cells(prev), Cells(curr))
      ensures r.Failure? ==> r.error == PixelOutOfRange
      ensures r.Success? ==> fresh(r.value)
      ensures r.Success? ==> r.value.Length0 == curr.Length0 && r.value.Length1 == curr.Length1
      ensures r.Success? ==> Cells(r.value) == MovementImage(Cells(prev), Cells(curr))
    {
      var newImg := new Pixel[curr.Length0, curr.Length1];
      for x := 0 to newImg.Length0
        invariant x <= prev.Length0
        invariant x > 0 ==> newImg.Length1 <= prev.Length1
        invariant forall i, j :: 0 <= i < x && 0 <= j < newImg.Length1 ==>
          i < prev.Length0 && j < prev.Length1 && newImg[i, j] == Delta(prev[i, j], curr[i, j])
      {
        for y := 0 to newImg.Length1
          invariant y > 0 ==> x < prev.Length0 && y <= prev.Length1
          invariant forall i, j :: 0 <= i < x && 0 <= j < newImg.Length1 ==>
            i < prev.Length0 && j < prev.Length1 && newImg[i, j] == Delta(prev[i, j], curr[i, j])
          invariant forall j :: 0 <= j < y ==>
            j < prev.Length1 && newImg[x, j] == Delta(prev[x, j], curr[x, j])
        {
          if x >= prev.Length0 || y >= prev.Length1 {
            return Failure(PixelOutOfRange);
          }
          var lastPixel := prev[x, y];
          var currPixel := curr[x, y];

          var newR := Abs(lastPixel.r - currPixel.r);
          var newG := Abs(lastPixel.g - currPixel.g);
          var newB := Abs(lastPixel.b - currPixel.b);

          if newR < 64 {
            newR := 0;
          }
          if newG < 64 {
            newG := 0;
          }
          if newB < 64 {
            newB := 0;
          }

          newImg[x, y] := Pixel(newR, newG, newB);
        }
      }
      ghost var m := MovementImage(Cells(prev), Cells(curr));
      forall i | 0 <= i < newImg.Length0 ensures Cells(newImg)[i] == m[i] {
        assert forall j | 0 <= j < newImg.Length1 :: Cells(newImg)[i][j] == m[i][j];
      }
      r := Success(newImg);
    }
  }
}
