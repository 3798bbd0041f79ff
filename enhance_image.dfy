/**
 * enhance_image.js: a contrast stretch of the canvas pixels followed by a
 * finer marker generator.
 *
 * The stretch maps every colour byte v to (v - 128) · 1.5 + 128, clamped to
 * [0, 255] and stored into a Uint8ClampedArray (round half to even); alpha is
 * left alone.  The generator then reads the stretched canvas back: grid step
 * width/30 and height/30, eight luminance differences to the neighbours at
 * offsets (round(2 cos kπ/4), round(2 sin kπ/4)), a point is a feature when
 * the largest exceeds 25, its scale is 1 + max/255, its
 * orientation the octant of the first largest difference, and its 128
 * descriptor entries round(luminance / 8) at taps on radii 1 to 8.
 */
module EnhanceImage {
  import opened Wrappers
  import opened Pixels
  import opened Marker
  import Grid

  const GridDivisions: int := 30
  const MaxGradientThreshold: nat := 25

  // ---------------------------------------------------------------------------
  // Contrast

  /**
   * Twice the clamped stretched value: (v - 128) · 1.5 + 128 is (3v - 128) / 2,
   * so it is held exactly in halves, clamped to [0, 510] (that is [0, 255]).
   */
  function StretchHalves(v: byte): (h: int)
    ensures 0 <= h <= 510
    ensures 0 < h < 510 ==> h == 3 * v - 128
    ensures h == 0 <==> 3 * v <= 128
    ensures h == 510 <==> 3 * v >= 638
  {
    var t := 3 * v - 128;
    if t < 0 then 0 else if t > 510 then 510 else t
  }

  /**
   * Storing h / 2 into a Uint8ClampedArray: the nearest byte, and the even one
   * of the two on a tie.
   */
  function StoreClamped(h: int): (b: byte)
    requires 0 <= h <= 510
    ensures 2 * b - 1 <= h <= 2 * b + 1
    ensures h % 2 == 0 ==> 2 * b == h
    ensures h % 2 == 1 ==> b % 2 == 0
  {
    if h % 2 == 0 then h / 2
    else
      var f := h / 2;
      if f % 2 == 0 then f else f + 1
  }

  /** The stored result of the stretch for one colour byte. */
  function Contrast(v: byte): byte
  {
    StoreClamped(StretchHalves(v))
  }

  /** Exactly 0, 128 and 255 are left as they are. */
  lemma ContrastFixedPoints(v: byte)
    ensures Contrast(v) == v <==> v == 0 || v == 128 || v == 255
  {
  }

  /** The stretch pushes values away from mid-grey: darker below it, brighter above. */
  lemma ContrastSpreads(v: byte)
    ensures 0 < v < 128 ==> Contrast(v) < v
    ensures 128 < v < 255 ==> Contrast(v) > v
  {
  }

  /** The stretch keeps the order of values. */
  lemma ContrastMonotone(a: byte, b: byte)
    requires a <= b
    ensures Contrast(a) <= Contrast(b)
  {
  }

  /** Worked values: 200 becomes 236, 127.5 is stored as 126 and 129.5 as 130 (ties to even). */
  lemma ContrastExamples()
    ensures Contrast(200) == 236
    ensures Contrast(127) == 126 && Contrast(129) == 130
    ensures Contrast(40) == 0 && Contrast(220) == 255
  {
  }

  /** The buffer after the stretch loop: colour bytes stretched, every fourth (alpha) byte kept. */
  function Enhance(data: seq<byte>): (out: seq<byte>)
    ensures |out| == |data|
  {
    seq(|data|, i requires 0 <= i < |data| => if i % 4 == 3 then data[i] else Contrast(data[i]))
  }

  /** The stretch changes neither alpha nor any colour byte that is 0, 128 or 255, and only those. */
  lemma EnhanceFixedIff(data: seq<byte>)
    ensures Enhance(data) == data <==>
            forall i :: 0 <= i < |data| && i % 4 != 3 ==> data[i] == 0 || data[i] == 128 || data[i] == 255
  {
    if Enhance(data) == data {
      forall i | 0 <= i < |data| && i % 4 != 3 ensures data[i] == 0 || data[i] == 128 || data[i] == 255 {
        assert Enhance(data)[i] == Contrast(data[i]);
        ContrastFixedPoints(data[i]);
      }
    } else {
      var i :| 0 <= i < |data| && Enhance(data)[i] != data[i];
      ContrastFixedPoints(data[i]);
    }
  }

  /** Alpha bytes pass through the stretch unchanged, and it keeps every colour byte's order. */
  lemma EnhanceKeepsAlphaAndOrder(data: seq<byte>, i: int, j: int)
    requires 0 <= i < |data| && 0 <= j < |data|
    ensures i % 4 == 3 ==> Enhance(data)[i] == data[i]
    ensures i % 4 != 3 && j % 4 != 3 && data[i] <= data[j] ==> Enhance(data)[i] <= Enhance(data)[j]
  {
    if i % 4 != 3 && j % 4 != 3 && data[i] <= data[j] {
      ContrastMonotone(data[i], data[j]);
    }
  }

  /**
   * The loop over the ImageData buffer, four bytes at a time.  A write past
   * the end of a typed array is dropped, so a trailing partial pixel is
   * stretched as far as it goes.
   */
  method EnhanceContrast(data: array<byte>)
    modifies data
    ensures data[..] == Enhance(old(data[..]))
  {
    ghost var original := data[..];
    var i := 0;
    while i < data.Length
      invariant 0 <= i && i % 4 == 0
      invariant i >= data.Length ==> i < data.Length + 4
      invariant forall k :: 0 <= k < data.Length ==>
                  data[k] == if k < i && k % 4 != 3 then Contrast(original[k]) else original[k]
      decreases data.Length - i
    {
      data[i] := Contrast(data[i]);
      if i + 1 < data.Length {
        data[i + 1] := Contrast(data[i + 1]);
      }
      if i + 2 < data.Length {
        data[i + 2] := Contrast(data[i + 2]);
      }
      i := i + 4;
    }
    assert forall k :: 0 <= k < data.Length ==> data[k] == Enhance(original)[k];
  }

  /** The canvas after putImageData: same size, stretched buffer. */
  function Enhanced(img: RgbaImage): (out: RgbaImage)
    ensures out.width == img.width && out.height == img.height && out.data == Enhance(img.data)
  {
    Raster(img.width, img.height, Enhance(img.data))
  }

  // ---------------------------------------------------------------------------
  // Detection

  /**
   * Neighbour offsets (round(2 cos(kπ/4)), round(2 sin(kπ/4))) for k = 0 .. 7:
   * the eight iterations of the angle loop.
   */
  const Directions: seq<(int, int)> := [(2, 0), (1, 1), (0, 2), (-1, 1), (-2, 0), (-1, -1), (0, -2), (1, -1)]

  /**
   * Tap offsets (round(r cos θi), round(r sin θi)) with r = 1 + i % 8 and
   * θi = 2πi/128.  `Math.round(x + t)` for an integer x is x + round(t).
   */
  const RoundTaps: seq<(int, int)> := [
    (1, 0), (2, 0), (3, 0), (4, 1), (5, 1), (6, 1), (7, 2), (8, 3),
    (1, 0), (2, 1), (3, 1), (3, 2), (4, 3), (5, 4), (5, 4), (6, 5),
    (1, 1), (1, 1), (2, 2), (2, 3), (3, 4), (3, 5), (3, 6), (3, 7),
    (0, 1), (1, 2), (1, 3), (1, 4), (1, 5), (1, 6), (1, 7), (0, 8),
    (0, 1), (0, 2), (0, 3), (-1, 4), (-1, 5), (-1, 6), (-2, 7), (-3, 8),
    (0, 1), (-1, 2), (-1, 3), (-2, 3), (-3, 4), (-4, 5), (-4, 5), (-5, 6),
    (-1, 1), (-1, 1), (-2, 2), (-3, 2), (-4, 3), (-5, 3), (-6, 3), (-7, 3),
    (-1, 0), (-2, 1), (-3, 1), (-4, 1), (-5, 1), (-6, 1), (-7, 1), (-8, 0),
    (-1, 0), (-2, 0), (-3, 0), (-4, -1), (-5, -1), (-6, -1), (-7, -2), (-8, -3),
    (-1, 0), (-2, -1), (-3, -1), (-3, -2), (-4, -3), (-5, -4), (-5, -4), (-6, -5),
    (-1, -1), (-1, -1), (-2, -2), (-2, -3), (-3, -4), (-3, -5), (-3, -6), (-3, -7),
    (0, -1), (-1, -2), (-1, -3), (-1, -4), (-1, -5), (-1, -6), (-1, -7), (0, -8),
    (0, -1), (0, -2), (0, -3), (1, -4), (1, -5), (1, -6), (2, -7), (3, -8),
    (0, -1), (1, -2), (1, -3), (2, -3), (3, -4), (4, -5), (4, -5), (5, -6),
    (1, -1), (1, -1), (2, -2), (3, -2), (4, -3), (5, -3), (6, -3), (7, -3),
    (1, 0), (2, -1), (3, -1), (4, -1), (5, -1), (6, -1), (7, -1), (8, 0)
  ]

  lemma TapCount()
    ensures |RoundTaps| == DescriptorLength
  {
  }

  function StepX(img: RgbaImage): int { img.width / GridDivisions }
  function StepY(img: RgbaImage): int { img.height / GridDivisions }

  /** `Math.round(gray / 8)` for a luminance given as 1000 × gray: the nearest integer, halves up. */
  function Round8(luma: int): (b: int)
    requires 0 <= luma <= 255000
    ensures 0 <= b <= 32
    ensures 8000 * b - 4000 <= luma < 8000 * b + 4000
  {
    (luma + 4000) / 8000
  }

  /** One descriptor entry: the rounded luminance at the tap, or 0 off the image. */
  function Sample(img: RgbaImage, sx: int, sy: int): (v: int)
    ensures 0 <= v <= 32
    ensures InImage(img, sx, sy) ==> 8000 * v - 4000 <= PixelLuma(img, sx, sy) < 8000 * v + 4000
    ensures !InImage(img, sx, sy) ==> v == 0
  {
    if InImage(img, sx, sy) then
      PixelInBuffer(img.width, img.height, 4, sx, sy);
      Round8(LumaAt(img.data, PixelIndex(img.width, 4, sx, sy)))
    else 0
  }

  function TapValue(img: RgbaImage, x: int, y: int, i: int): int
    requires 0 <= i < |RoundTaps|
  {
    Sample(img, x + RoundTaps[i].0, y + RoundTaps[i].1)
  }

  /** The 128-entry descriptor of the point (x, y). */
  function Descriptor(img: RgbaImage, x: int, y: int): seq<int>
  {
    seq(|RoundTaps|, i requires 0 <= i < |RoundTaps| => TapValue(img, x, y, i))
  }

  /** 128 entries, each in [0, 32], and 0 for every tap off the image. */
  lemma DescriptorFacts(img: RgbaImage, x: int, y: int)
    ensures var d := Descriptor(img, x, y);
            |d| == DescriptorLength && forall i :: 0 <= i < |d| ==> 0 <= d[i] <= 32
    ensures var d := Descriptor(img, x, y);
            forall i :: 0 <= i < |d| && !InImage(img, x + RoundTaps[i].0, y + RoundTaps[i].1) ==> d[i] == 0
    ensures var d := Descriptor(img, x, y);
            forall i :: 0 <= i < |d| && InImage(img, x + RoundTaps[i].0, y + RoundTaps[i].1) ==>
              8000 * d[i] - 4000 <= PixelLuma(img, x + RoundTaps[i].0, y + RoundTaps[i].1) < 8000 * d[i] + 4000
  {
  }

  /** The luminance difference towards direction k, or 0 when that neighbour is off the image. */
  function DirectionGradient(img: RgbaImage, x: int, y: int, gray: int, k: int): (g: int)
    requires 0 <= gray <= 255000 && 0 <= k < |Directions|
    ensures 0 <= g <= 255000
    ensures !InImage(img, x + Directions[k].0, y + Directions[k].1) ==> g == 0
  {
    var nx, ny := x + Directions[k].0, y + Directions[k].1;
    if InImage(img, nx, ny) then
      PixelInBuffer(img.width, img.height, 4, nx, ny);
      Abs(LumaAt(img.data, PixelIndex(img.width, 4, nx, ny)) - gray)
    else 0
  }

  /** The eight differences, in the order the angle loop pushes them. */
  function Gradients(img: RgbaImage, x: int, y: int, gray: int): seq<int>
    requires 0 <= gray <= 255000
  {
    seq(|Directions|, k requires 0 <= k < |Directions| => DirectionGradient(img, x, y, gray, k))
  }

  /** `Math.max(...s)` of a nonempty list. */
  function MaxOf(s: seq<int>): int
    requires |s| > 0
  {
    if |s| == 1 then s[0]
    else
      var rest := MaxOf(s[1..]);
      if s[0] >= rest then s[0] else rest
  }

  /** MaxOf is an element of the list and no element exceeds it. */
  lemma {:induction false} MaxOfIsMaximum(s: seq<int>)
    requires |s| > 0
    ensures MaxOf(s) in s
    ensures forall e <- s :: e <= MaxOf(s)
  {
    if |s| > 1 {
      MaxOfIsMaximum(s[1..]);
      assert s == [s[0]] + s[1..];
    }
  }

  /** `s.indexOf(v)`: the first position holding v, or -1. */
  function IndexOf(s: seq<int>, v: int): int
  {
    if |s| == 0 then -1
    else if s[0] == v then 0
    else
      var r := IndexOf(s[1..], v);
      if r == -1 then -1 else r + 1
  }

  /** IndexOf finds the first occurrence, and -1 exactly when there is none. */
  lemma {:induction false} IndexOfIsFirst(s: seq<int>, v: int)
    ensures -1 <= IndexOf(s, v) < |s|
    ensures IndexOf(s, v) == -1 <==> v !in s
    ensures IndexOf(s, v) >= 0 ==> s[IndexOf(s, v)] == v && forall j :: 0 <= j < IndexOf(s, v) ==> s[j] != v
  {
    if |s| > 0 && s[0] != v {
      IndexOfIsFirst(s[1..], v);
      assert s == [s[0]] + s[1..];
    }
  }

  /** `1.0 + maxGradient / 255` with the maximum given in 1/1000 luminance units. */
  function Scale(maxGradient: int): real
  {
    1.0 + (maxGradient as real) / 255000.0
  }

  /**
   * What the loop body decides at (x, y).  A centre index outside the buffer
   * reads `undefined`; every difference is then NaN or 0 and no feature is made.
   */
  function Detection(img: RgbaImage, x: int, y: int): Option<Feature>
  {
    var idx := PixelIndex(img.width, 4, x, y);
    if 0 <= idx && idx + 2 < |img.data| then
      var gradients := Gradients(img, x, y, LumaAt(img.data, idx));
      var maxGradient := MaxOf(gradients);
      if maxGradient > 1000 * MaxGradientThreshold then
        Some(Feature(x, y, Scale(maxGradient), Octant(IndexOf(gradients, maxGradient)), Descriptor(img, x, y)))
      else None
    else None
  }

  function CellOf(img: RgbaImage): Grid.Cell
  {
    (x, y) => Detection(img, x, y)
  }

  /** The features createBetterNFTMarker collects for an image of at least 30 × 30 pixels. */
  function Features(img: RgbaImage): seq<Feature>
    requires StepX(img) > 0 && StepY(img) > 0
  {
    Grid.Features(CellOf(img), StepX(img), StepY(img), img.width, img.height)
  }

  // ---------------------------------------------------------------------------
  // The generator

  /** One iteration of the angle loop: the difference towards direction k, or 0 off the image. */
  method ReadGradient(img: RgbaImage, x: int, y: int, gray: int, k: int) returns (gradient: int)
    requires 0 <= gray <= 255000 && 0 <= k < |Directions|
    ensures gradient == DirectionGradient(img, x, y, gray, k)
  {
    var nx := x + Directions[k].0;
    var ny := y + Directions[k].1;
    if nx >= 0 && nx < img.width && ny >= 0 && ny < img.height {
      var nIdx := PixelIndex(img.width, 4, nx, ny);
      PixelInBuffer(img.width, img.height, 4, nx, ny);
      var nGray := Luma601(img.data[nIdx], img.data[nIdx + 1], img.data[nIdx + 2]);
      gradient := Abs(nGray - gray);
    } else {
      gradient := 0;
    }
  }

  /** The angle loop: one difference per direction, 0 for a neighbour off the image. */
  method ComputeGradients(img: RgbaImage, x: int, y: int, gray: int) returns (gradients: seq<int>)
    requires 0 <= gray <= 255000
    ensures gradients == Gradients(img, x, y, gray)
  {
    gradients := [];
    var k := 0;
    while k < 8
      invariant 0 <= k <= 8
      invariant gradients == Gradients(img, x, y, gray)[..k]
    {
      var gradient := ReadGradient(img, x, y, gray, k);
      gradients := gradients + [gradient];
      k := k + 1;
    }
  }

  /** One descriptor tap: the pixel's rounded luminance / 8, or 0 off the image. */
  method ReadSample(img: RgbaImage, sx: int, sy: int) returns (value: int)
    ensures value == Sample(img, sx, sy)
  {
    if sx >= 0 && sx < img.width && sy >= 0 && sy < img.height {
      var sIdx := PixelIndex(img.width, 4, sx, sy);
      PixelInBuffer(img.width, img.height, 4, sx, sy);
      var sGray := Luma601(img.data[sIdx], img.data[sIdx + 1], img.data[sIdx + 2]);
      value := (sGray + 4000) / 8000;
    } else {
      value := 0;
    }
  }

  /** The descriptor loop: 128 taps, rounded luminance / 8 or 0 off the image. */
  method BuildDescriptor(img: RgbaImage, x: int, y: int) returns (descriptor: seq<int>)
    ensures descriptor == Descriptor(img, x, y)
  {
    TapCount();
    hide RoundTaps;  // the loop needs only the table's length, not its entries
    descriptor := [];
    var i := 0;
    while i < 128
      invariant 0 <= i <= 128
      invariant descriptor == Descriptor(img, x, y)[..i]
    {
      var value := ReadSample(img, x + RoundTaps[i].0, y + RoundTaps[i].1);
      descriptor := descriptor + [value];
      i := i + 1;
    }
  }

  /** The body of the grid loops at (x, y). */
  method DetectAt(img: RgbaImage, x: int, y: int) returns (feature: Option<Feature>)
    ensures feature == Detection(img, x, y)
  {
    feature := None;
    var idx := PixelIndex(img.width, 4, x, y);
    if 0 <= idx && idx + 2 < |img.data| {
      var gray := Luma601(img.data[idx], img.data[idx + 1], img.data[idx + 2]);
      var gradients := ComputeGradients(img, x, y, gray);
      var maxGradient := MaxOf(gradients);
      if maxGradient > 25000 {
        var descriptor := BuildDescriptor(img, x, y);
        feature := Some(Feature(x, y, Scale(maxGradient), Octant(IndexOf(gradients, maxGradient)), descriptor));
      }
    }
  }

  /** One pass of the inner loop of the grid scan: row `y`, left to right. */
  method ScanRow(img: RgbaImage, stepX: int, y: int) returns (row: seq<Feature>)
    requires stepX > 0
    ensures row == Grid.Row(CellOf(img), stepX, img.width, y)
  {
    hide Detection;  // the scan needs only that each step's result is the cell's value
    ghost var cell := CellOf(img);
    row := [];
    var x := stepX;
    while x < img.width - stepX
      invariant x >= stepX
      invariant Grid.LoopEnd(x, img.width - stepX, stepX) == Grid.LoopEnd(stepX, img.width - stepX, stepX)
      invariant row == Grid.RowBefore(cell, stepX, y, x)
      decreases img.width - x
    {
      var feature := DetectAt(img, x, y);
      Grid.RowStep(cell, stepX, y, x, row, feature);
      Grid.LoopEndStep(x, img.width - stepX, stepX);
      if feature.Some? {
        row := row + [feature.value];
      }
      x := x + stepX;
    }
  }

  /** The outer loop of the grid scan: rows stepY, 2·stepY, … below height - stepY, top to bottom. */
  method ScanRows(img: RgbaImage, stepX: int, stepY: int) returns (features: seq<Feature>)
    requires stepX > 0 && stepY > 0
    ensures features == Grid.Features(CellOf(img), stepX, stepY, img.width, img.height)
  {
    hide Detection;  // the scan needs only that each step's result is the cell's value
    ghost var cell := CellOf(img);
    features := [];
    var y := stepY;
    while y < img.height - stepY
      invariant y >= stepY
      invariant Grid.LoopEnd(y, img.height - stepY, stepY) == Grid.LoopEnd(stepY, img.height - stepY, stepY)
      invariant features == Grid.ScanBefore(cell, stepX, stepY, img.width, y)
      decreases img.height - y
    {
      var row := ScanRow(img, stepX, y);
      Grid.ScanStep(cell, stepX, stepY, img.width, y, features, row);
      Grid.LoopEndStep(y, img.height - stepY, stepY);
      features := features + row;
      y := y + stepY;
    }
  }

  /**
   * createBetterNFTMarker on the canvas pixels: the grid scan, the feature
   * set and the image set (this generator writes no .fset3).  `jpeg` stands
   * for the canvas encoded by the JPEG encoder at quality 0.9.
   */
  method CreateBetterNftMarker(img: RgbaImage, jpeg: seq<byte>) returns (featureSet: FeatureSet, imageSet: ImageSet)
    requires img.width >= GridDivisions && img.height >= GridDivisions
    ensures featureSet == FeatureSet(img.width, img.height, [72, 72], Features(img))
    ensures imageSet == ImageSet([ImageEntry(img.width, img.height, jpeg, "jpeg")])
  {
    var stepX := img.width / GridDivisions;
    var stepY := img.height / GridDivisions;
    var features := ScanRows(img, stepX, stepY);
    featureSet := FeatureSet(img.width, img.height, [72, 72], features);
    imageSet := ImageSet([ImageEntry(img.width, img.height, jpeg, "jpeg")]);
  }

  /**
   * enhanceImageForTracking on a decoded image: stretch the pixels in place,
   * then generate the markers from the stretched canvas.  `jpeg` is the
   * encoding of the stretched canvas.
   */
  method EnhanceImageForTracking(img: RgbaImage, jpeg: seq<byte>) returns (featureSet: FeatureSet, imageSet: ImageSet)
    requires img.width >= GridDivisions && img.height >= GridDivisions
    ensures featureSet == FeatureSet(img.width, img.height, [72, 72], Features(Enhanced(img)))
    ensures imageSet == ImageSet([ImageEntry(img.width, img.height, jpeg, "jpeg")])
  {
    var data := new byte[|img.data|](i requires 0 <= i < |img.data| => img.data[i]);
    assert data[..] == img.data;
    EnhanceContrast(data);
    var canvas: RgbaImage := Raster(img.width, img.height, data[..]);
    assert canvas == Enhanced(img);
    featureSet, imageSet := CreateBetterNftMarker(canvas, jpeg);
  }

  // ---------------------------------------------------------------------------
  // What the generated feature list satisfies

  /** The eight differences at a pixel of the image. */
  function GradientsAt(img: RgbaImage, x: int, y: int): seq<int>
    requires InImage(img, x, y)
  {
    PixelInBuffer(img.width, img.height, 4, x, y);
    Gradients(img, x, y, LumaAt(img.data, PixelIndex(img.width, 4, x, y)))
  }

  /**
   * Eight differences, each in [0, 255] luminance (in 1/1000 units): entry k
   * is the absolute luminance difference to neighbour k when that neighbour is
   * on the image, and 0 when it is not.
   */
  lemma GradientsFacts(img: RgbaImage, x: int, y: int)
    requires InImage(img, x, y)
    ensures |GradientsAt(img, x, y)| == |Directions|
    ensures forall k :: 0 <= k < |Directions| ==> 0 <= GradientsAt(img, x, y)[k] <= 255000
    ensures forall k :: 0 <= k < |Directions| && InImage(img, x + Directions[k].0, y + Directions[k].1) ==>
              GradientsAt(img, x, y)[k]
              == Abs(PixelLuma(img, x + Directions[k].0, y + Directions[k].1) - PixelLuma(img, x, y))
    ensures forall k :: 0 <= k < |Directions| && !InImage(img, x + Directions[k].0, y + Directions[k].1) ==>
              GradientsAt(img, x, y)[k] == 0
  {
  }

  /** The scale of an emitted feature lies in (1 + 25/255, 2]. */
  lemma ScaleBounds(maxGradient: int)
    requires 1000 * MaxGradientThreshold < maxGradient <= 255000
    ensures 1.0 + 25.0 / 255.0 < Scale(maxGradient) <= 2.0
  {
    assert (maxGradient as real) / 255000.0 > 25000.0 / 255000.0;
  }

  /** For a pixel of the image the centre read is inside the buffer: the decision is the gradient test. */
  lemma InImageDetection(img: RgbaImage, x: int, y: int)
    requires InImage(img, x, y)
    ensures var gs := GradientsAt(img, x, y);
            |gs| == |Directions| &&
            (Detection(img, x, y).Some? <==> MaxOf(gs) > 1000 * MaxGradientThreshold) &&
            (Detection(img, x, y).Some? ==>
               Detection(img, x, y).value
               == Feature(x, y, Scale(MaxOf(gs)), Octant(IndexOf(gs, MaxOf(gs))), Descriptor(img, x, y)))
  {
    PixelInBuffer(img.width, img.height, 4, x, y);
  }

  /** Each feature the body emits carries its own grid point. */
  lemma DetectionPositioned(img: RgbaImage)
    ensures Grid.Positioned(CellOf(img))
  {
    forall x, y | CellOf(img)(x, y).Some?
      ensures CellOf(img)(x, y).value.x == x && CellOf(img)(x, y).value.y == y
    {
    }
  }

  /**
   * Every feature sits on the grid; its largest difference exceeds 25; its
   * scale is 1 + max/255, inside (1 + 25/255, 2]; its orientation is the
   * octant of the first direction with the largest difference; its
   * descriptor has 128 entries in [0, 32].
   */
  lemma FeatureFacts(img: RgbaImage, f: Feature)
    requires StepX(img) > 0 && StepY(img) > 0
    requires f in Features(img)
    ensures Grid.OnGrid(StepX(img), img.width, f.x) && Grid.OnGrid(StepY(img), img.height, f.y)
    ensures InImage(img, f.x, f.y)
    ensures var gs := GradientsAt(img, f.x, f.y);
            |gs| == |Directions| && MaxOf(gs) > 1000 * MaxGradientThreshold && f.scale == Scale(MaxOf(gs))
    ensures 1.0 + 25.0 / 255.0 < f.scale <= 2.0
    ensures var gs := GradientsAt(img, f.x, f.y);
            f.orientation.Octant? && 0 <= f.orientation.index < |gs| &&
            (forall j :: 0 <= j < |gs| ==> gs[j] <= gs[f.orientation.index]) &&
            (forall j :: 0 <= j < f.orientation.index ==> gs[j] < gs[f.orientation.index])
    ensures f.descriptor == Descriptor(img, f.x, f.y)
    ensures |f.descriptor| == DescriptorLength && forall i :: 0 <= i < |f.descriptor| ==> 0 <= f.descriptor[i] <= 32
  {
    Grid.FeaturesMembers(CellOf(img), StepX(img), StepY(img), img.width, img.height, f);
    var x, y :| Grid.OnGrid(StepX(img), img.width, x) && Grid.OnGrid(StepY(img), img.height, y)
                && CellOf(img)(x, y) == Some(f);
    InImageDetection(img, x, y);
    var gs := GradientsAt(img, x, y);
    GradientsFacts(img, x, y);
    MaxOfIsMaximum(gs);
    IndexOfIsFirst(gs, MaxOf(gs));
    ScaleBounds(MaxOf(gs));
    DescriptorFacts(img, x, y);
    forall j | 0 <= j < |gs| ensures gs[j] <= MaxOf(gs) {
      assert gs[j] in gs;
    }
  }

  /** A grid point appears in the list exactly when one of its eight differences exceeds 25. */
  lemma EmittedIff(img: RgbaImage, x: int, y: int)
    requires StepX(img) > 0 && StepY(img) > 0
    requires Grid.OnGrid(StepX(img), img.width, x) && Grid.OnGrid(StepY(img), img.height, y)
    ensures InImage(img, x, y)
    ensures HasFeatureAt(Features(img), x, y) <==>
            exists k :: 0 <= k < |Directions| && GradientsAt(img, x, y)[k] > 1000 * MaxGradientThreshold
  {
    var cell := CellOf(img);
    DetectionPositioned(img);
    Grid.FeatureAtGridPoint(cell, StepX(img), StepY(img), img.width, img.height, x, y);
    InImageDetection(img, x, y);
    var gs := GradientsAt(img, x, y);
    MaxOfIsMaximum(gs);
    var some := exists k :: 0 <= k < |Directions| && gs[k] > 1000 * MaxGradientThreshold;
    if some {
      var k :| 0 <= k < |Directions| && gs[k] > 1000 * MaxGradientThreshold;
      assert gs[k] in gs;
    }
    if MaxOf(gs) > 1000 * MaxGradientThreshold {
      var k :| 0 <= k < |gs| && gs[k] == MaxOf(gs);
    }
    assert some <==> MaxOf(gs) > 1000 * MaxGradientThreshold;
    assert HasFeatureAt(Features(img), x, y) <==> cell(x, y).Some?;
  }

  /** The list is in scan order, y first and then x, with no point twice. */
  lemma FeaturesInScanOrder(img: RgbaImage)
    requires StepX(img) > 0 && StepY(img) > 0
    ensures RowMajor(Features(img))
  {
    DetectionPositioned(img);
    Grid.FeaturesRowMajor(CellOf(img), StepX(img), StepY(img), img.width, img.height);
  }
}
