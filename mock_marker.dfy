/**
 * create_marker.py: the Python marker creator.
 *
 * The image, converted to RGB, is shrunk so that its longest side is at most
 * 1024 pixels; the grid step is width // 10 and height // 10, and a grid point
 * whose luminance (weights 0.2989, 0.5870, 0.1140) exceeds 128 becomes a
 * feature with scale 1.0, orientation 0.0 and 128 zero descriptor entries.
 * The resampling, the JPEG encoding and the file writes are not modelled: the
 * generator takes the processed pixels and the saved JPEG bytes.
 */
module MockMarker {
  import opened Wrappers
  import opened Pixels
  import opened Marker
  import Grid

  const MaxSize: nat := 1024
  const GridDivisions: int := 10
  const BrightnessThreshold: nat := 128

  /** What `range` raises for a zero step. */
  const RangeStepZero: string := "ValueError: range() arg 3 must not be zero"

  function Max(a: int, b: int): int { if a >= b then a else b }

  /**
   * `img.size` after the resize step: when the longest side exceeds 1024 both
   * sides are scaled by 1024 / longest and truncated, otherwise unchanged.
   */
  function ProcessedSize(width: nat, height: nat): (nat, nat)
  {
    var longest := Max(width, height);
    if longest > MaxSize then (width * MaxSize / longest, height * MaxSize / longest)
    else (width, height)
  }

  /**
   * The processed image is never larger than the original, its longest side
   * is at most 1024, exactly 1024 when the image was shrunk, and a small image
   * is left as it is.
   */
  lemma ProcessedSizeFacts(width: nat, height: nat)
    ensures ProcessedSize(width, height).0 <= width && ProcessedSize(width, height).1 <= height
    ensures Max(ProcessedSize(width, height).0, ProcessedSize(width, height).1) <= MaxSize
    ensures Max(width, height) > MaxSize ==>
              Max(ProcessedSize(width, height).0, ProcessedSize(width, height).1) == MaxSize
    ensures Max(width, height) <= MaxSize ==> ProcessedSize(width, height) == (width, height)
  {
    var longest := Max(width, height);
    if longest > MaxSize {
      ScaleDown(width, longest);
      ScaleDown(height, longest);
      Grid.DivModUnique(longest * MaxSize, longest, MaxSize, 0);
    }
  }

  /** d · 1024 / m is at most d and at most 1024 when d <= m and m > 1024. */
  lemma ScaleDown(d: nat, m: nat)
    requires d <= m && m > MaxSize
    ensures d * MaxSize / m <= d && d * MaxSize / m <= MaxSize
  {
    MulMonotone(MaxSize, m, d);
    DivMonotone(d * MaxSize, m * d, m);
    Grid.DivModUnique(m * d, m, d, 0);
    MulMonotone(d, m, MaxSize);
    DivMonotone(d * MaxSize, m * MaxSize, m);
    Grid.DivModUnique(m * MaxSize, m, MaxSize, 0);
  }

  lemma DivMonotone(a: int, b: int, m: int)
    requires a <= b && m > 0
    ensures a / m <= b / m
  {
    var qa, qb := a / m, b / m;
    assert qa * m + a % m == a && qb * m + b % m == b;
    if qa > qb {
      MulMonotone(qb + 1, qa, m);
      assert false;
    }
  }

  function StepX(img: RgbImage): int { img.width / GridDivisions }
  function StepY(img: RgbImage): int { img.height / GridDivisions }

  /** 10000 × `gray[y, x]` for a pixel of the image. */
  function Brightness(img: RgbImage, x: int, y: int): (l: int)
    requires InImage(img, x, y)
    ensures 0 <= l <= 2549745
  {
    PixelInBuffer(img.width, img.height, 3, x, y);
    var idx := PixelIndex(img.width, 3, x, y);
    Luma2989(img.data[idx], img.data[idx + 1], img.data[idx + 2])
  }

  /** The mock descriptor: 128 zeros. */
  function ZeroDescriptor(): seq<int> { seq(DescriptorLength, _ => 0) }

  /** What the loop body decides at (x, y); the loops never reach a point off the image. */
  function Detection(img: RgbImage, x: int, y: int): Option<Feature>
  {
    if InImage(img, x, y) && Brightness(img, x, y) > 10000 * BrightnessThreshold then
      Some(Feature(x, y, 1.0, Upright, ZeroDescriptor()))
    else None
  }

  function CellOf(img: RgbImage): Grid.Cell
  {
    (x, y) => Detection(img, x, y)
  }

  /** The features create_nft_marker collects when both steps are positive. */
  function Features(img: RgbImage): seq<Feature>
    requires StepX(img) > 0 && StepY(img) > 0
  {
    Grid.Features(CellOf(img), StepX(img), StepY(img), img.width, img.height)
  }

  // ---------------------------------------------------------------------------
  // The generator

  /** The body of the grid loops at (x, y), a point of the image. */
  method DetectAt(img: RgbImage, x: int, y: int) returns (feature: Option<Feature>)
    requires InImage(img, x, y)
    ensures feature == Detection(img, x, y)
  {
    PixelInBuffer(img.width, img.height, 3, x, y);
    var idx := PixelIndex(img.width, 3, x, y);
    var gray := Luma2989(img.data[idx], img.data[idx + 1], img.data[idx + 2]);
    if gray > 1280000 {
      feature := Some(Feature(x, y, 1.0, Upright, ZeroDescriptor()));
    } else {
      feature := None;
    }
  }

  /** The inner loop: `for x in range(step_x, width - step_x, step_x)` with a positive step. */
  method ScanRow(img: RgbImage, stepX: int, y: int) returns (row: seq<Feature>)
    requires stepX > 0 && 0 <= y < img.height
    ensures row == Grid.Row(CellOf(img), stepX, img.width, y)
  {
    hide Detection;  // the scan needs only that each step's result is the cell's value
    ghost var cell := CellOf(img);
    row := [];
    var x := stepX;
    while x < img.width - stepX
      invariant x >= stepX
      invariant Grid.LoopEnd(x, img.width - stepX, stepX) == Grid.LoopEnd(stepX, img.width - stepX, stepX)
      invariant row == Grid.RowBefore(cell, stepX, y, x)
      decreases img.width - x
    {
      var feature := DetectAt(img, x, y);
      Grid.RowStep(cell, stepX, y, x, row, feature);
      Grid.LoopEndStep(x, img.width - stepX, stepX);
      if feature.Some? {
        row := row + [feature.value];
      }
      x := x + stepX;
    }
  }

  /**
   * create_nft_marker on the processed image.  `jpeg` stands for the bytes of
   * the saved processed JPEG, which the image set embeds.  A zero grid step
   * makes `range` raise before any marker file is written.
   */
  method CreateNftMarker(img: RgbImage, jpeg: seq<byte>) returns (result: Result<MarkerFiles, string>)
    ensures result.Failure? <==> StepX(img) == 0 || StepY(img) == 0
    ensures result.Failure? ==> result.error == RangeStepZero
    ensures result.Success? ==>
              result.value == MarkerFiles(FeatureSet(img.width, img.height, [72, 72], Features(img)),
                                          FeatureSet3(img.width, img.height, []),
                                          ImageSet([ImageEntry(img.width, img.height, jpeg, "jpeg")]))
  {
    var stepX := img.width / GridDivisions;
    var stepY := img.height / GridDivisions;
    if stepY == 0 {
      return Failure(RangeStepZero);
    }
    hide Detection;
    ghost var cell := CellOf(img);
    var features: seq<Feature> := [];
    var y := stepY;
    while y < img.height - stepY
      invariant y >= stepY && (y == stepY || stepX > 0)
      invariant Grid.LoopEnd(y, img.height - stepY, stepY) == Grid.LoopEnd(stepY, img.height - stepY, stepY)
      invariant stepX > 0 ==> features == Grid.ScanBefore(cell, stepX, stepY, img.width, y)
      decreases img.height - y
    {
      if stepX == 0 {
        return Failure(RangeStepZero);
      }
      var row := ScanRow(img, stepX, y);
      Grid.ScanStep(cell, stepX, stepY, img.width, y, features, row);
      Grid.LoopEndStep(y, img.height - stepY, stepY);
      features := features + row;
      y := y + stepY;
    }
    // with a positive step the outer range is never empty, so the inner one was reached
    assert stepX > 0;
    assert features == Grid.Features(cell, stepX, stepY, img.width, img.height);
    var featureSet := FeatureSet(img.width, img.height, [72, 72], features);
    var featureSet3 := FeatureSet3(img.width, img.height, []);
    var imageSet := ImageSet([ImageEntry(img.width, img.height, jpeg, "jpeg")]);
    return Success(MarkerFiles(featureSet, featureSet3, imageSet));
  }

  // ---------------------------------------------------------------------------
  // What the generated feature list satisfies

  /** Each feature the body emits carries its own grid point. */
  lemma DetectionPositioned(img: RgbImage)
    ensures Grid.Positioned(CellOf(img))
  {
    forall x, y | CellOf(img)(x, y).Some?
      ensures CellOf(img)(x, y).value.x == x && CellOf(img)(x, y).value.y == y
    {
    }
  }

  /**
   * Every feature sits on the grid over a pixel brighter than 128, with scale
   * 1.0, orientation 0 and the 128-zero descriptor.
   */
  lemma FeatureFacts(img: RgbImage, f: Feature)
    requires StepX(img) > 0 && StepY(img) > 0
    requires f in Features(img)
    ensures Grid.OnGrid(StepX(img), img.width, f.x) && Grid.OnGrid(StepY(img), img.height, f.y)
    ensures InImage(img, f.x, f.y) && Brightness(img, f.x, f.y) > 10000 * BrightnessThreshold
    ensures f.scale == 1.0 && f.orientation == Upright
    ensures |f.descriptor| == DescriptorLength && forall i :: 0 <= i < |f.descriptor| ==> f.descriptor[i] == 0
  {
    Grid.FeaturesMembers(CellOf(img), StepX(img), StepY(img), img.width, img.height, f);
    var x, y :| Grid.OnGrid(StepX(img), img.width, x) && Grid.OnGrid(StepY(img), img.height, y)
                && CellOf(img)(x, y) == Some(f);
  }

  /** A grid point appears in the list exactly when it is brighter than 128. */
  lemma EmittedIff(img: RgbImage, x: int, y: int)
    requires StepX(img) > 0 && StepY(img) > 0
    requires Grid.OnGrid(StepX(img), img.width, x) && Grid.OnGrid(StepY(img), img.height, y)
    ensures InImage(img, x, y)
    ensures HasFeatureAt(Features(img), x, y) <==> Brightness(img, x, y) > 10000 * BrightnessThreshold
  {
    DetectionPositioned(img);
    Grid.FeatureAtGridPoint(CellOf(img), StepX(img), StepY(img), img.width, img.height, x, y);
  }

  /** The list is in scan order, y first and then x, with no point twice. */
  lemma FeaturesInScanOrder(img: RgbImage)
    requires StepX(img) > 0 && StepY(img) > 0
    ensures RowMajor(Features(img))
  {
    DetectionPositioned(img);
    Grid.FeaturesRowMajor(CellOf(img), StepX(img), StepY(img), img.width, img.height);
  }
}
