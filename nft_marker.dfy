/**
 * createNFTMarker: the base marker generator.
 *
 * Grid step width/20 and height/20; a grid point is a feature when the
 * Euclidean norm of its right and down luminance differences exceeds 30; its
 * descriptor samples luminance at 128 taps on a circle of radius 5 and keeps
 * floor(luminance / 16).  The pixel buffer is given (decoding is not modelled).
 */
module NftMarker {
  import opened Wrappers
  import opened Pixels
  import opened Marker
  import Grid

  const GridDivisions: int := 20
  const GradientThreshold: nat := 30

  /**
   * Tap offsets (floor(5 cos θi), floor(5 sin θi)) for θi = 2πi/128, in exact
   * arithmetic.  The pixel coordinate is `Math.floor(x + cos θi · 5)`, which for
   * an integer x is x plus the offset.
   */
  const TapOffsets: seq<(int, int)> := [
    (5, 0), (4, 0), (4, 0), (4, 0), (4, 0), (4, 1), (4, 1), (4, 1),
    (4, 1), (4, 2), (4, 2), (4, 2), (4, 2), (4, 2), (3, 3), (3, 3),
    (3, 3), (3, 3), (3, 3), (2, 4), (2, 4), (2, 4), (2, 4), (2, 4),
    (1, 4), (1, 4), (1, 4), (1, 4), (0, 4), (0, 4), (0, 4), (0, 4),
    (0, 5), (-1, 4), (-1, 4), (-1, 4), (-1, 4), (-2, 4), (-2, 4), (-2, 4),
    (-2, 4), (-3, 4), (-3, 4), (-3, 4), (-3, 4), (-3, 4), (-4, 3), (-4, 3),
    (-4, 3), (-4, 3), (-4, 3), (-5, 2), (-5, 2), (-5, 2), (-5, 2), (-5, 2),
    (-5, 1), (-5, 1), (-5, 1), (-5, 1), (-5, 0), (-5, 0), (-5, 0), (-5, 0),
    (-5, 0), (-5, -1), (-5, -1), (-5, -1), (-5, -1), (-5, -2), (-5, -2), (-5, -2),
    (-5, -2), (-5, -3), (-5, -3), (-5, -3), (-5, -3), (-5, -3), (-4, -4), (-4, -4),
    (-4, -4), (-4, -4), (-4, -4), (-3, -5), (-3, -5), (-3, -5), (-3, -5), (-3, -5),
    (-2, -5), (-2, -5), (-2, -5), (-2, -5), (-1, -5), (-1, -5), (-1, -5), (-1, -5),
    (0, -5), (0, -5), (0, -5), (0, -5), (0, -5), (1, -5), (1, -5), (1, -5),
    (1, -5), (2, -5), (2, -5), (2, -5), (2, -5), (2, -5), (3, -4), (3, -4),
    (3, -4), (3, -4), (3, -4), (4, -3), (4, -3), (4, -3), (4, -3), (4, -3),
    (4, -2), (4, -2), (4, -2), (4, -2), (4, -1), (4, -1), (4, -1), (4, -1)
  ]

  lemma TapCount()
    ensures |TapOffsets| == DescriptorLength
  {
  }

  function StepX(img: RgbaImage): int { img.width / GridDivisions }
  function StepY(img: RgbaImage): int { img.height / GridDivisions }

  /** `Math.floor(gray / 16)` for a luminance given as 1000 × gray. */
  function Bucket(luma: int): (b: int)
    requires 0 <= luma <= 255000
    ensures 0 <= b <= 15
    ensures 16000 * b <= luma < 16000 * (b + 1)
  {
    luma / 16000
  }

  /** One descriptor entry: the bucket of the tap's luminance, or the sentinel 0 off the image. */
  function Sample(img: RgbaImage, sx: int, sy: int): (v: int)
    ensures 0 <= v <= 15
    ensures InImage(img, sx, sy) ==> 16000 * v <= PixelLuma(img, sx, sy) < 16000 * (v + 1)
    ensures !InImage(img, sx, sy) ==> v == 0
  {
    if InImage(img, sx, sy) then
      PixelInBuffer(img.width, img.height, 4, sx, sy);
      Bucket(LumaAt(img.data, PixelIndex(img.width, 4, sx, sy)))
    else 0
  }

  function TapValue(img: RgbaImage, x: int, y: int, i: int): int
    requires 0 <= i < |TapOffsets|
  {
    Sample(img, x + TapOffsets[i].0, y + TapOffsets[i].1)
  }

  /** The 128-entry descriptor of the point (x, y). */
  function Descriptor(img: RgbaImage, x: int, y: int): (d: seq<int>)
    ensures |d| == DescriptorLength
    ensures forall i :: 0 <= i < |d| ==> 0 <= d[i] <= 15
    ensures forall i :: 0 <= i < |d| && InImage(img, x + TapOffsets[i].0, y + TapOffsets[i].1) ==>
              16000 * d[i] <= PixelLuma(img, x + TapOffsets[i].0, y + TapOffsets[i].1) < 16000 * (d[i] + 1)
    ensures forall i :: 0 <= i < |d| && !InImage(img, x + TapOffsets[i].0, y + TapOffsets[i].1) ==> d[i] == 0
  {
    seq(|TapOffsets|, i requires 0 <= i < |TapOffsets| => TapValue(img, x, y, i))
  }

  /** Squared two-neighbour gradient against the squared threshold, both in 1/1000 luminance units. */
  function Exceeds(gradX: int, gradY: int, threshold: nat): bool
  {
    gradX * gradX + gradY * gradY > (1000 * threshold) * (1000 * threshold)
  }

  /**
   * What the loop body decides at the point (x, y), for a given threshold.
   * A centre index outside the buffer reads `undefined`, which makes the
   * gradient NaN and the comparison false: no feature.
   */
  function Detection(img: RgbaImage, threshold: nat, x: int, y: int): Option<Feature>
  {
    var idx := PixelIndex(img.width, 4, x, y);
    if 0 <= idx && idx + 2 < |img.data| then
      var gray := LumaAt(img.data, idx);
      var rightIdx := PixelIndex(img.width, 4, x + 1, y);
      var bottomIdx := PixelIndex(img.width, 4, x, y + 1);
      if rightIdx < |img.data| && bottomIdx < |img.data| then
        NeighbourIndices(img.width, 4, x, y);
        WholePixel(img, x + 1, y);
        WholePixel(img, x, y + 1);
        var gradX := Abs(LumaAt(img.data, rightIdx) - gray);
        var gradY := Abs(LumaAt(img.data, bottomIdx) - gray);
        if Exceeds(gradX, gradY, threshold) then
          Some(Feature(x, y, 1.0, GradientAngle(gradX, gradY), Descriptor(img, x, y)))
        else None
      else None
    else None
  }

  function CellOf(img: RgbaImage, threshold: nat): Grid.Cell
  {
    (x, y) => Detection(img, threshold, x, y)
  }

  /** The features createNFTMarker collects for an image of at least 20 × 20 pixels. */
  function Features(img: RgbaImage): seq<Feature>
    requires StepX(img) > 0 && StepY(img) > 0
  {
    Grid.Features(CellOf(img, GradientThreshold), StepX(img), StepY(img), img.width, img.height)
  }

  // ---------------------------------------------------------------------------
  // The generator

  /** One descriptor tap: the pixel's luminance / 16 rounded down, or 0 off the image. */
  method ReadSample(img: RgbaImage, rx: int, ry: int) returns (value: int)
    ensures value == Sample(img, rx, ry)
  {
    if rx >= 0 && rx < img.width && ry >= 0 && ry < img.height {
      var pixelIdx := PixelIndex(img.width, 4, rx, ry);
      PixelInBuffer(img.width, img.height, 4, rx, ry);
      var pixelGray := Luma601(img.data[pixelIdx], img.data[pixelIdx + 1], img.data[pixelIdx + 2]);
      value := pixelGray / 16000;
    } else {
      value := 0;
    }
  }

  /** The inner 128-iteration loop pushing one entry per tap. */
  method BuildDescriptor(img: RgbaImage, x: int, y: int) returns (descriptor: seq<int>)
    ensures descriptor == Descriptor(img, x, y)
  {
    TapCount();
    hide TapOffsets;  // the loop needs only the table's length, not its entries
    descriptor := [];
    var i := 0;
    while i < 128
      invariant 0 <= i <= 128
      invariant descriptor == Descriptor(img, x, y)[..i]
    {
      var value := ReadSample(img, x + TapOffsets[i].0, y + TapOffsets[i].1);
      descriptor := descriptor + [value];
      i := i + 1;
    }
  }

  /** The body of the grid loops at (x, y). */
  method DetectAt(img: RgbaImage, x: int, y: int) returns (feature: Option<Feature>)
    ensures feature == Detection(img, GradientThreshold, x, y)
  {
    feature := None;
    var idx := PixelIndex(img.width, 4, x, y);
    if 0 <= idx && idx + 2 < |img.data| {
      var gray := Luma601(img.data[idx], img.data[idx + 1], img.data[idx + 2]);
      var rightIdx := PixelIndex(img.width, 4, x + 1, y);
      var bottomIdx := PixelIndex(img.width, 4, x, y + 1);
      if rightIdx < |img.data| && bottomIdx < |img.data| {
        NeighbourIndices(img.width, 4, x, y);
        WholePixel(img, x + 1, y);
        WholePixel(img, x, y + 1);
        var rightGray := Luma601(img.data[rightIdx], img.data[rightIdx + 1], img.data[rightIdx + 2]);
        var bottomGray := Luma601(img.data[bottomIdx], img.data[bottomIdx + 1], img.data[bottomIdx + 2]);
        var gradX := Abs(rightGray - gray);
        var gradY := Abs(bottomGray - gray);
        if gradX * gradX + gradY * gradY > 900000000 {
          var descriptor := BuildDescriptor(img, x, y);
          feature := Some(Feature(x, y, 1.0, GradientAngle(gradX, gradY), descriptor));
        }
      }
    }
  }

  /** One pass of the inner loop of the grid scan: row `y`, left to right. */
  method ScanRow(img: RgbaImage, stepX: int, y: int) returns (row: seq<Feature>)
    requires stepX > 0
    ensures row == Grid.Row(CellOf(img, GradientThreshold), stepX, img.width, y)
  {
    hide Detection;  // the scan needs only that each step's result is the cell's value
    ghost var cell := CellOf(img, GradientThreshold);
    row := [];
    var x := stepX;
    while x < img.width - stepX
      invariant x >= stepX
      invariant Grid.LoopEnd(x, img.width - stepX, stepX) == Grid.LoopEnd(stepX, img.width - stepX, stepX)
      invariant row == Grid.RowBefore(cell, stepX, y, x)
      decreases img.width - x
    {
      var feature := DetectAt(img, x, y);
      Grid.RowStep(cell, stepX, y, x, row, feature);
      Grid.LoopEndStep(x, img.width - stepX, stepX);
      if feature.Some? {
        row := row + [feature.value];
      }
      x := x + stepX;
    }
  }

  /** The outer loop of the grid scan: rows stepY, 2·stepY, … below height - stepY, top to bottom. */
  method ScanRows(img: RgbaImage, stepX: int, stepY: int) returns (features: seq<Feature>)
    requires stepX > 0 && stepY > 0
    ensures features == Grid.Features(CellOf(img, GradientThreshold), stepX, stepY, img.width, img.height)
  {
    hide Detection;  // the scan needs only that each step's result is the cell's value
    ghost var cell := CellOf(img, GradientThreshold);
    features := [];
    var y := stepY;
    while y < img.height - stepY
      invariant y >= stepY
      invariant Grid.LoopEnd(y, img.height - stepY, stepY) == Grid.LoopEnd(stepY, img.height - stepY, stepY)
      invariant features == Grid.ScanBefore(cell, stepX, stepY, img.width, y)
      decreases img.height - y
    {
      var row := ScanRow(img, stepX, y);
      Grid.ScanStep(cell, stepX, stepY, img.width, y, features, row);
      Grid.LoopEndStep(y, img.height - stepY, stepY);
      features := features + row;
      y := y + stepY;
    }
  }

  /**
   * createNFTMarker on a decoded image: the grid scan and the three records.
   * `jpeg` stands for the canvas re-encoded by the JPEG encoder.  The steps
   * must be positive: with a zero step the source loops forever.
   */
  method CreateNftMarker(img: RgbaImage, jpeg: seq<byte>) returns (featureSet: FeatureSet, featureSet3: FeatureSet3, imageSet: ImageSet)
    requires img.width >= GridDivisions && img.height >= GridDivisions
    ensures featureSet == FeatureSet(img.width, img.height, [72, 72], Features(img))
    ensures featureSet3 == FeatureSet3(img.width, img.height, [])
    ensures imageSet == ImageSet([ImageEntry(img.width, img.height, jpeg, "jpeg")])
  {
    var stepX := img.width / GridDivisions;
    var stepY := img.height / GridDivisions;
    var features := ScanRows(img, stepX, stepY);
    featureSet := FeatureSet(img.width, img.height, [72, 72], features);
    featureSet3 := FeatureSet3(img.width, img.height, []);
    imageSet := ImageSet([ImageEntry(img.width, img.height, jpeg, "jpeg")]);
  }

  // ---------------------------------------------------------------------------
  // What the generated feature list satisfies

  /** The luminance difference to the right neighbour, for a point with one. */
  function GradientX(img: RgbaImage, x: int, y: int): (g: int)
    requires 0 <= x && x + 1 < img.width && 0 <= y < img.height
    ensures 0 <= g <= 255000
  {
    PixelInBuffer(img.width, img.height, 4, x, y);
    PixelInBuffer(img.width, img.height, 4, x + 1, y);
    Abs(LumaAt(img.data, PixelIndex(img.width, 4, x + 1, y)) - LumaAt(img.data, PixelIndex(img.width, 4, x, y)))
  }

  /** The luminance difference to the lower neighbour, for a point with one. */
  function GradientY(img: RgbaImage, x: int, y: int): (g: int)
    requires 0 <= x < img.width && 0 <= y && y + 1 < img.height
    ensures 0 <= g <= 255000
  {
    PixelInBuffer(img.width, img.height, 4, x, y);
    PixelInBuffer(img.width, img.height, 4, x, y + 1);
    Abs(LumaAt(img.data, PixelIndex(img.width, 4, x, y + 1)) - LumaAt(img.data, PixelIndex(img.width, 4, x, y)))
  }

  /**
   * At a point with a right and a lower neighbour every index the loop body
   * reads is inside the buffer, so the decision is the gradient test alone.
   */
  lemma InteriorDetection(img: RgbaImage, threshold: nat, x: int, y: int)
    requires 0 <= x && x + 1 < img.width && 0 <= y && y + 1 < img.height
    ensures Detection(img, threshold, x, y).Some? <==> Exceeds(GradientX(img, x, y), GradientY(img, x, y), threshold)
    ensures Detection(img, threshold, x, y).Some? ==>
              Detection(img, threshold, x, y).value
              == Feature(x, y, 1.0, GradientAngle(GradientX(img, x, y), GradientY(img, x, y)), Descriptor(img, x, y))
  {
    PixelInBuffer(img.width, img.height, 4, x, y);
    PixelInBuffer(img.width, img.height, 4, x + 1, y);
    PixelInBuffer(img.width, img.height, 4, x, y + 1);
  }

  /** Each feature the body emits carries its own grid point. */
  lemma DetectionPositioned(img: RgbaImage, threshold: nat)
    ensures Grid.Positioned(CellOf(img, threshold))
  {
    forall x, y | CellOf(img, threshold)(x, y).Some?
      ensures CellOf(img, threshold)(x, y).value.x == x && CellOf(img, threshold)(x, y).value.y == y
    {
    }
  }

  /** A grid point has a right and a lower neighbour. */
  lemma GridPointInterior(img: RgbaImage, x: int, y: int)
    requires Grid.OnGrid(StepX(img), img.width, x) && Grid.OnGrid(StepY(img), img.height, y)
    ensures 0 <= x && x + 1 < img.width && 0 <= y && y + 1 < img.height
  {
  }

  /**
   * Every feature sits on the grid, passed the gradient test, has scale 1.0,
   * the gradient pair as its orientation and the 128-bucket descriptor of its
   * point.
   */
  lemma FeatureFacts(img: RgbaImage, f: Feature)
    requires StepX(img) > 0 && StepY(img) > 0
    requires f in Features(img)
    ensures Grid.OnGrid(StepX(img), img.width, f.x) && Grid.OnGrid(StepY(img), img.height, f.y)
    ensures 0 <= f.x && f.x + 1 < img.width && 0 <= f.y && f.y + 1 < img.height
    ensures Exceeds(GradientX(img, f.x, f.y), GradientY(img, f.x, f.y), GradientThreshold)
    ensures f.scale == 1.0
    ensures f.orientation == GradientAngle(GradientX(img, f.x, f.y), GradientY(img, f.x, f.y))
    ensures f.descriptor == Descriptor(img, f.x, f.y)
    ensures |f.descriptor| == DescriptorLength && forall i :: 0 <= i < |f.descriptor| ==> 0 <= f.descriptor[i] <= 15
  {
    Grid.FeaturesMembers(CellOf(img, GradientThreshold), StepX(img), StepY(img), img.width, img.height, f);
    var x, y :| Grid.OnGrid(StepX(img), img.width, x) && Grid.OnGrid(StepY(img), img.height, y)
                && CellOf(img, GradientThreshold)(x, y) == Some(f);
    GridPointInterior(img, x, y);
    InteriorDetection(img, GradientThreshold, x, y);
  }

  /** A grid point appears in the list exactly when its gradient norm exceeds 30. */
  lemma EmittedIff(img: RgbaImage, x: int, y: int)
    requires StepX(img) > 0 && StepY(img) > 0
    requires Grid.OnGrid(StepX(img), img.width, x) && Grid.OnGrid(StepY(img), img.height, y)
    ensures x + 1 < img.width && y + 1 < img.height
    ensures HasFeatureAt(Features(img), x, y) <==> Exceeds(GradientX(img, x, y), GradientY(img, x, y), GradientThreshold)
  {
    var cell := CellOf(img, GradientThreshold);
    DetectionPositioned(img, GradientThreshold);
    Grid.FeatureAtGridPoint(cell, StepX(img), StepY(img), img.width, img.height, x, y);
    InteriorDetection(img, GradientThreshold, x, y);
    assert cell(x, y).Some? <==> Exceeds(GradientX(img, x, y), GradientY(img, x, y), GradientThreshold);
  }

  /** The list is in scan order, y first and then x, with no point twice. */
  lemma FeaturesInScanOrder(img: RgbaImage)
    requires StepX(img) > 0 && StepY(img) > 0
    ensures RowMajor(Features(img))
  {
    DetectionPositioned(img, GradientThreshold);
    Grid.FeaturesRowMajor(CellOf(img, GradientThreshold), StepX(img), StepY(img), img.width, img.height);
  }

  lemma ExceedsMonotone(gradX: int, gradY: int, lower: nat, higher: nat)
    requires lower <= higher && Exceeds(gradX, gradY, higher)
    ensures Exceeds(gradX, gradY, lower)
  {
    MulMonotone(1000 * lower, 1000 * higher, 1000 * lower);
    MulMonotone(1000 * lower, 1000 * higher, 1000 * higher);
  }

  /**
   * Raising the threshold keeps a subset of the features: every feature found
   * at the higher threshold is found at the lower one, and there are no more
   * of them.
   */
  lemma ThresholdMonotone(img: RgbaImage, lower: nat, higher: nat)
    requires StepX(img) > 0 && StepY(img) > 0 && lower <= higher
    ensures var coarse := Grid.Features(CellOf(img, lower), StepX(img), StepY(img), img.width, img.height);
            var fine := Grid.Features(CellOf(img, higher), StepX(img), StepY(img), img.width, img.height);
            |fine| <= |coarse| && forall f <- fine :: f in coarse
  {
    var coarse, fine := CellOf(img, lower), CellOf(img, higher);
    forall x, y | fine(x, y).Some? ensures coarse(x, y) == fine(x, y) {
      var idx := PixelIndex(img.width, 4, x, y);
      NeighbourIndices(img.width, 4, x, y);
      WholePixel(img, x + 1, y);
      WholePixel(img, x, y + 1);
      var gradX := Abs(LumaAt(img.data, PixelIndex(img.width, 4, x + 1, y)) - LumaAt(img.data, idx));
      var gradY := Abs(LumaAt(img.data, PixelIndex(img.width, 4, x, y + 1)) - LumaAt(img.data, idx));
      ExceedsMonotone(gradX, gradY, lower, higher);
    }
    Grid.FeaturesShrink(coarse, fine, StepX(img), StepY(img), img.width, img.height);
    forall f | f in Grid.Features(fine, StepX(img), StepY(img), img.width, img.height)
      ensures f in Grid.Features(coarse, StepX(img), StepY(img), img.width, img.height)
    {
      Grid.FeaturesMembers(fine, StepX(img), StepY(img), img.width, img.height, f);
      Grid.FeaturesMembers(coarse, StepX(img), StepY(img), img.width, img.height, f);
    }
  }
}
