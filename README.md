# NFT marker generator — a Dafny model

This project models the offline generator that turns a reference picture into
the three AR.js NFT marker records. These are the feature set (`.fset`), the
multi-scale feature set (`.fset3`) and the image set (`.iset`). The generator
comes in three variants of one pipeline:

- `createNFTMarker` (create_nft_markers.js, module `NftMarker`) works on the
  decoded RGBA buffer. It visits the grid points x = k·⌊W/20⌋, y = l·⌊H/20⌋
  strictly inside the image. It compares the BT.601 luminance of each point
  with its right and lower neighbours, and keeps the point when the Euclidean
  norm of the two differences exceeds 30. The point's descriptor holds 128
  entries ⌊luminance/16⌋, sampled on a circle of radius 5, with 0 for a tap
  that falls off the image.
- `enhanceImageForTracking` / `createBetterNFTMarker` (enhance_image.js,
  module `EnhanceImage`) first stretches the contrast of every R, G and B
  byte in place. It then uses a grid of ⌊W/30⌋ by ⌊H/30⌋. A point is kept
  when the largest of eight luminance differences exceeds 25. The eight
  neighbours sit at the offsets (round(2 cos kπ/4), round(2 sin kπ/4)). The
  feature's scale is 1 + max/255 and its orientation is the octant of the
  first maximal direction. Its descriptor holds 128 entries
  round(luminance/8) on circles of radius 1 + (i mod 8).
- `create_nft_marker` (create_marker.py, module `MockMarker`) first shrinks
  an image whose longest side exceeds 1024 to a longest side of 1024 (in
  exact arithmetic); a smaller image keeps its size. It uses a grid of W//10 by
  H//10 and keeps a point whose brightness (weights 0.2989, 0.5870, 0.1140)
  exceeds 128. Each kept point gets a mock feature: scale 1.0, orientation
  0.0 and 128 zeros.

Module `Pixels` holds the byte buffers, pixel indexing and the integer
luminances. Module `Marker` holds the record types. Module `Grid` is the grid
scan shared by all three variants: the nested half-open `for` loops
`for (y = step; y < H - step; y += step)`, written as functions of a cell
decision `(x, y) -> Option<Feature>`. Its lemmas say which features the scan
collects and in which order.

Each generator is an imperative method:

- a stride-4 loop for the contrast stretch;
- an 8-iteration loop that feeds the gradient list;
- a 128-iteration loop that builds the descriptor;
- the two grid loops that accumulate the feature list.

Each loop is proved equal to a specification function. The properties of the
output are then proved about those functions.

All arithmetic is exact:

- luminance is kept as an integer in thousandths (BT.601) or ten-thousandths
  (the numpy weights);
- the square root becomes a comparison of squares, gX² + gY² > (1000·30)²;
- the tap and direction offsets are integer tables.

The circle taps are the floor (base variant) or round-half-up (enhanced
variant) of r·cos(2πi/128) and r·sin(2πi/128), evaluated exactly.

The contrast stretch stores (v − 128)·1.5 + 128 into a `Uint8ClampedArray`.
That store clamps to [0, 255] and rounds a half to the even neighbour. The
model writes the value as halves, h = clamp(3v − 128, 0, 510), and stores the
even-rounded h/2. So 200 ↦ 236, 127 ↦ 126 and 129 ↦ 130, and the only fixed
points are 0, 128 and 255.

The JavaScript loops never end when a step is 0, that is, when the image is
narrower or lower than 20 (base) or 30 (enhanced) pixels. So the JavaScript
methods require a positive step; `Grid.LoopExitsIff` shows why. Python's
`range` raises `ValueError` for a zero step. That case is modelled:
`MockMarker.CreateNftMarker` returns `Failure` exactly when a step is 0.

## Model

| member | source | states |
|---|---|---|
| Pixels.PixelInBuffer | create_nft_markers.js:26-29 | the index (y·W + x)·4 of a pixel of the image and its channel bytes lie inside the buffer |
| Pixels.NeighbourIndices | create_nft_markers.js:33-34 | the right neighbour's index is the centre's plus 4, the lower neighbour's is the centre's plus 4·W |
| Pixels.WholePixel | create_nft_markers.js:36-38 | once the red byte of a pixel is inside the RGBA buffer (the `< data.length` guard), its green and blue bytes are too |
| Pixels.Luma601 | create_nft_markers.js:30 | 1000 × (0.299 r + 0.587 g + 0.114 b) lies in [0, 255000] and a grey pixel has luminance equal to its byte |
| Pixels.Luma2989 | create_marker.py:51 | 10000 × (0.2989 r + 0.5870 g + 0.1140 b) lies in [0, 2549745]; a grey pixel gives 9999 × its byte |
| Pixels.PixelLuma | enhance_image.js:83-84 | the luminance of any pixel of the image can be read and lies in [0, 255000] |
| Grid.LoopEnd | create_nft_markers.js:24-25 | the value at which `for (v = start; v < bound; v += step)` stops: start itself once start ≥ bound, otherwise where the loop from start + step stops |
| Grid.RowBefore | create_nft_markers.js:25-67 | what the inner loop has pushed for row y when its variable reaches x: the features of the columns stepX, 2·stepX, … below x, left to right, where a column with no feature contributes nothing |
| Grid.Row | create_nft_markers.js:25-70 | what one complete run of the inner loop pushes for row y: the row collected up to the value where `x < W - stepX` first fails |
| Grid.ScanBefore | create_nft_markers.js:24-71 | what the outer loop has pushed when its variable reaches y: the whole rows stepY, 2·stepY, … below y, concatenated top to bottom |
| Grid.Features | create_nft_markers.js:24-71 | the feature list of the complete double loop: the rows collected up to the value where `y < H - stepY` first fails |
| Grid.LoopEndFacts | create_nft_markers.js:24-25 | the first value the loop variable reaches at or past the bound is start plus a multiple of the step, and the value before it is still below the bound |
| Grid.LoopEndStep | create_nft_markers.js:24-25 | one increment of the loop variable does not change where the loop ends |
| Grid.RowStep | create_nft_markers.js:25-67 | one pass of the inner loop body appends the point's feature, if any, to the row collected so far |
| Grid.ScanStep | create_nft_markers.js:24-71 | one pass of the outer loop appends the whole row y to the features collected so far |
| Grid.GridBelowLoopEnd | create_nft_markers.js:24-25 | the loop visits exactly the values v with step ≤ v < dim − step and v a multiple of step |
| Grid.LoopExitsIff | create_nft_markers.js:24-25 | a `for (v = start; v < bound; v += step)` loop ends if and only if it starts at or past its bound or its step is positive, so a zero step never ends |
| Grid.BehindStep | create_nft_markers.js:24-25 | the values visited before v + step are those visited before v together with v itself |
| Grid.RowBeforeMembers | create_nft_markers.js:25 | a feature is in the row collected before x if and only if some visited point left of x produced it |
| Grid.RowMembers | create_nft_markers.js:25 | a feature is in a row's list if and only if some grid column of that row produced it |
| Grid.ScanBeforeMembers | create_nft_markers.js:24 | a feature is collected before row y if and only if it is in the list of some visited row above y |
| Grid.FeaturesMembers | create_nft_markers.js:24-25 | a feature is in the scan's list if and only if some grid point produced it: no feature from elsewhere, none lost |
| Grid.ConcatRowMajor | create_nft_markers.js:61 | appending a row-major list whose features all come after those already collected keeps the whole list row-major |
| Grid.RowBeforeOrdered | create_nft_markers.js:25 | a row's features are strictly increasing in x and all lie left of the current x |
| Grid.ScanBeforeOrdered | create_nft_markers.js:24 | the features of the rows before y are row-major and all lie above y |
| Grid.FeaturesRowMajor | create_nft_markers.js:24-25 | the scan's list is strictly row-major: y outer, x inner, at most one feature per point |
| Grid.FeatureAtGridPoint | create_nft_markers.js:24-25 | a grid point has a feature in the list if and only if its cell decision emits one, and that feature is the emitted one |
| Grid.RowBeforeShrinks | create_nft_markers.js:45 | a stricter cell decision collects no more features in a row |
| Grid.ScanBeforeShrinks | create_nft_markers.js:45 | a stricter cell decision collects no more features over the rows |
| Grid.FeaturesShrink | create_nft_markers.js:45 | a stricter cell decision gives a list no longer than a looser one |
| NftMarker.Bucket | create_nft_markers.js:55 | `Math.floor(gray / 16)` is the b in [0, 15] with 16·b ≤ gray < 16·(b + 1) |
| NftMarker.Sample | create_nft_markers.js:52-58 | a descriptor tap is in [0, 15]; on the image it is the ⌊luminance/16⌋ bucket, off the image it is the sentinel 0 |
| NftMarker.Descriptor | create_nft_markers.js:47-59 | a descriptor has exactly 128 entries; each is in [0, 15], is the ⌊luminance/16⌋ bucket of its tap on the image, and is 0 for a tap off the image |
| NftMarker.Detection | create_nft_markers.js:26-68 | the decision of the loop body at (x, y): nothing when the centre's index or the `rightIdx`/`bottomIdx < data.length` guard fails, otherwise the feature (x, y, 1.0, atan2 pair (gradX, gradY), the descriptor) exactly when gradX² + gradY² > 30², with luminance in thousandths |
| NftMarker.ReadSample | create_nft_markers.js:52-58 | the bounds check and read of one tap computes Sample |
| NftMarker.BuildDescriptor | create_nft_markers.js:47-59 | the 128-iteration loop pushes exactly the Descriptor of the point |
| NftMarker.DetectAt | create_nft_markers.js:26-68 | the loop body emits exactly the Detection of the point: nothing when the guard fails, a feature when the squared gradient exceeds 900 |
| NftMarker.ScanRow | create_nft_markers.js:25-70 | the inner loop collects exactly the row of the grid scan |
| NftMarker.ScanRows | create_nft_markers.js:24-71 | the nested loops collect exactly the grid scan's feature list |
| NftMarker.CreateNftMarker | create_nft_markers.js:21-105 | the .fset record is (W, H, dpi [72, 72], the scan's features); the .fset3 record is (W, H, no features); the .iset record holds the one jpeg entry (W, H, data) |
| NftMarker.GradientX | create_nft_markers.js:40 | the right-neighbour difference lies in [0, 255] luminance |
| NftMarker.GradientY | create_nft_markers.js:41 | the lower-neighbour difference lies in [0, 255] luminance |
| NftMarker.InteriorDetection | create_nft_markers.js:33-45 | at a point with a right and a lower neighbour the guard always passes; a feature is emitted if and only if gradX² + gradY² > 30², and it is (x, y, 1.0, atan2 of the pair, the descriptor) |
| NftMarker.DetectionPositioned | create_nft_markers.js:61-63 | an emitted feature carries the coordinates of its own grid point |
| NftMarker.GridPointInterior | create_nft_markers.js:24-36 | every grid point has x + 1 < W and y + 1 < H, so no grid point is skipped by the `data.length` guard |
| NftMarker.FeatureFacts | create_nft_markers.js:21-67 | every feature lies on the grid, stepX ≤ x < W − stepX and stepY ≤ y < H − stepY as multiples; it passed the gradient test; it has scale 1.0, the gradient pair as orientation, and its point's descriptor of 128 entries in [0, 15] |
| NftMarker.EmittedIff | create_nft_markers.js:24-45 | a grid point has a feature in the list if and only if gradX² + gradY² > 30² there |
| NftMarker.FeaturesInScanOrder | create_nft_markers.js:24-25 | the features are in row-major grid order, one per accepted point |
| NftMarker.ExceedsMonotone | create_nft_markers.js:45 | a gradient that passes a threshold passes every lower one |
| NftMarker.ThresholdMonotone | create_nft_markers.js:45 | raising the threshold keeps a sub-collection: every feature at the higher threshold is found at the lower one, and there are no more of them |
| EnhanceImage.StretchHalves | enhance_image.js:28-31 | twice (v − 128)·1.5 + 128, clamped: it lies in [0, 510], is 3v − 128 strictly inside, and is 0 or 510 exactly when the clamp cuts |
| EnhanceImage.StoreClamped | enhance_image.js:34-36 | the byte store gives the byte nearest to h/2; an exact value is kept and a tie goes to the even byte |
| EnhanceImage.Contrast | enhance_image.js:29-36 | the byte stored for one colour byte: the clamped stretch (v − 128)·1.5 + 128 passed through the Uint8ClampedArray store |
| EnhanceImage.ContrastFixedPoints | enhance_image.js:29-36 | a byte is unchanged by the contrast stretch if and only if it is 0, 128 or 255 |
| EnhanceImage.ContrastSpreads | enhance_image.js:29-36 | bytes below 128 get darker and bytes above 128 get lighter |
| EnhanceImage.ContrastMonotone | enhance_image.js:29-31 | the stretch is monotone non-decreasing in the input byte |
| EnhanceImage.ContrastExamples | enhance_image.js:29-36 | 200 ↦ 236, 127 ↦ 126, 129 ↦ 130, 40 ↦ 0, 220 ↦ 255 |
| EnhanceImage.Enhance | enhance_image.js:21-37 | the enhanced buffer has the same length |
| EnhanceImage.EnhanceFixedIff | enhance_image.js:21-37 | the buffer is unchanged if and only if every R, G and B byte is 0, 128 or 255 |
| EnhanceImage.EnhanceKeepsAlphaAndOrder | enhance_image.js:21-37 | every alpha byte (i mod 4 = 3) is unchanged, and two colour bytes keep their order |
| EnhanceImage.EnhanceContrast | enhance_image.js:21-37 | the stride-4 loop rewrites the array in place into Enhance of its old contents |
| EnhanceImage.Enhanced | enhance_image.js:39-40 | the canvas after `putImageData` has the same width and height and the enhanced buffer |
| EnhanceImage.TapCount | enhance_image.js:96 | the descriptor tap table has 128 entries |
| EnhanceImage.Round8 | enhance_image.js:105 | `Math.round(gray / 8)` is the b in [0, 32] nearest gray/8, halves up (32, not 31, for gray ≥ 252) |
| EnhanceImage.Sample | enhance_image.js:99-108 | a tap is in [0, 32]; on the image it is round(luminance/8), off the image it is 0 |
| EnhanceImage.DescriptorFacts | enhance_image.js:95-109 | a descriptor has 128 entries in [0, 32]; entry i is the rounded luminance/8 at radius 1 + (i mod 8) on the image, and 0 off it |
| EnhanceImage.DirectionGradient | enhance_image.js:76-88 | one direction's difference lies in [0, 255] luminance and is 0 when the neighbour is off the image |
| EnhanceImage.Gradients | enhance_image.js:75-89 | the list the angle loop pushes: for k = 0 … 7 in order, the difference towards direction k or 0 off the image |
| EnhanceImage.MaxOf | enhance_image.js:91 | `Math.max(...gradients)` of a nonempty list, computed element by element |
| EnhanceImage.IndexOf | enhance_image.js:115 | `gradients.indexOf(v)`: the position of the first element equal to v, or −1 |
| EnhanceImage.Scale | enhance_image.js:114 | `1.0 + maxGradient / 255` for a maximum given in thousandths of luminance |
| EnhanceImage.GradientsFacts | enhance_image.js:75-89 | the gradient list has exactly 8 entries; entry k is the absolute luminance difference to neighbour k on the image, and 0 off it |
| EnhanceImage.MaxOfIsMaximum | enhance_image.js:91 | `Math.max(...gradients)` is an element of the list and no element exceeds it |
| EnhanceImage.IndexOfIsFirst | enhance_image.js:115 | `indexOf` returns the first position holding the value, and −1 exactly when it is absent |
| EnhanceImage.ScaleBounds | enhance_image.js:93-114 | for a maximum above 25 (and at most 255) the scale 1 + max/255 lies in (1 + 25/255, 2] |
| EnhanceImage.Detection | enhance_image.js:68-118 | the decision of the loop body at (x, y): nothing when the centre's index is outside the buffer; otherwise the feature (x, y, Scale(max), octant IndexOf(gradients, max), the descriptor) exactly when the largest of the eight differences exceeds 25 |
| EnhanceImage.ReadGradient | enhance_image.js:77-88 | one pass of the angle loop pushes DirectionGradient |
| EnhanceImage.ComputeGradients | enhance_image.js:75-89 | the angle loop builds exactly the 8-entry gradient list |
| EnhanceImage.ReadSample | enhance_image.js:99-108 | the bounds check and read of one tap computes Sample |
| EnhanceImage.BuildDescriptor | enhance_image.js:95-109 | the 128-iteration loop pushes exactly the Descriptor of the point |
| EnhanceImage.DetectAt | enhance_image.js:68-118 | the loop body emits exactly the Detection of the point |
| EnhanceImage.ScanRow | enhance_image.js:67-119 | the inner loop collects exactly the row of the grid scan |
| EnhanceImage.ScanRows | enhance_image.js:66-120 | the nested loops collect exactly the grid scan's feature list |
| EnhanceImage.CreateBetterNftMarker | enhance_image.js:56-147 | the .fset record is (W, H, dpi [72, 72], the scan's features) and the .iset record holds the one jpeg entry (W, H, data) |
| EnhanceImage.EnhanceImageForTracking | enhance_image.js:17-49 | the marker records are built from the scan of the contrast-enhanced buffer, not of the original pixels |
| EnhanceImage.InImageDetection | enhance_image.js:68-117 | at a pixel of the image a feature is emitted if and only if the largest difference exceeds 25, and it is (x, y, 1 + max/255, octant of indexOf(max), the descriptor) |
| EnhanceImage.DetectionPositioned | enhance_image.js:111-113 | an emitted feature carries the coordinates of its own grid point |
| EnhanceImage.FeatureFacts | enhance_image.js:63-117 | every feature lies on the ⌊dim/30⌋ grid inside the image; its largest difference exceeds 25; its scale is 1 + max/255 in (1 + 25/255, 2]; its orientation index is the first index of a maximal difference; its descriptor has 128 entries in [0, 32] |
| EnhanceImage.EmittedIff | enhance_image.js:66-93 | a grid point has a feature in the list if and only if one of its eight differences exceeds 25 |
| EnhanceImage.FeaturesInScanOrder | enhance_image.js:66-67 | the features are in row-major grid order, one per accepted point |
| MockMarker.ProcessedSizeFacts | create_marker.py:24-29 | under exact arithmetic the resize never enlarges a side; the longest side ends at most 1024, and exactly 1024 when it was shrunk; an image whose longest side is at most 1024 keeps its size |
| MockMarker.ScaleDown | create_marker.py:27-28 | a side d ≤ m scaled by 1024/m truncates to at most d and at most 1024 |
| MockMarker.ProcessedSize | create_marker.py:25-29 | `img.size` after the resize step: both sides scaled by 1024 / longest and truncated when the longest side exceeds 1024, otherwise unchanged (in exact arithmetic) |
| MockMarker.Brightness | create_marker.py:51 | the brightness of a pixel lies in [0, 2549745] ten-thousandths |
| MockMarker.Detection | create_marker.py:59-66 | the decision of the loop body at (x, y): for a pixel of the image, the mock feature (x, y, 1.0, orientation 0.0, 128 zeros) exactly when gray[y, x] > 128, and nothing otherwise |
| MockMarker.DetectAt | create_marker.py:59-66 | the loop body emits exactly the Detection of the point |
| MockMarker.ScanRow | create_marker.py:58-67 | the inner `range` loop collects exactly the row of the grid scan |
| MockMarker.CreateNftMarker | create_marker.py:36-100 | Failure with `range`'s ValueError if and only if W // 10 or H // 10 is 0; otherwise the .fset record (W, H, [72, 72], the scan's features), an empty .fset3 record, and one jpeg image entry (W, H, data) |
| MockMarker.DetectionPositioned | create_marker.py:60-62 | an emitted feature carries the coordinates of its own grid point |
| MockMarker.FeatureFacts | create_marker.py:54-66 | every feature lies on the W // 10 by H // 10 grid inside the image with brightness above 128; it has scale 1.0, orientation 0.0 and 128 zero entries |
| MockMarker.EmittedIff | create_marker.py:57-59 | a grid point has a feature in the list if and only if `gray[y, x] > 128` there |
| MockMarker.FeaturesInScanOrder | create_marker.py:57-67 | the features are appended in row-major grid order, one per accepted point |

## Left out

- Image decoding and encoding are not modelled. This covers `loadImage`, `createCanvas`, `drawImage`, `getImageData`/`putImageData`, `canvas.toBuffer` with its JPEG qualities, and PIL's `open`, `convert('RGB')`, `save` and `resize` with LANCZOS resampling. The decoded pixels are a given byte buffer, and the JPEG bytes are a given parameter. `MockMarker.CreateNftMarker` takes the image after the resize; `MockMarker.ProcessedSize` gives only its new size.
- `getImageData` after `putImageData` is taken to return the stored bytes unchanged. That holds for the opaque pixels of a decoded JPEG; premultiplied-alpha effects on translucent pixels are not modelled.
- Base64 text, JSON serialisation, the file writes, console output and the `try`/`catch` error reporting are not modelled. The model returns the record values that would be written.
- The enhanced image file `paint1_enhanced.jpg` (quality 0.95) is not modelled. It is a file write with no bearing on the records.
- The enhanced variant writes only the .fset and .iset records; the .fset3 file from the base script is left as it was. The model returns those two records.
- Floating-point rounding is not modelled. Luminance, the gradient norm, the buckets, the thresholds and the scale use exact rational arithmetic. A value within one rounding error of a boundary may be classified differently by IEEE-754 doubles.
- `Math.sqrt` is not modelled: the norm test is the equivalent comparison of squares.
- `Math.cos` and `Math.sin` are replaced by integer offset tables. The tables hold the exact floor (base variant) or round-half-up (enhanced variant) of the tap coordinates, so a double landing a hair off an integer boundary is not reproduced. One such case is systematic: in doubles `Math.cos(3π/2) · 5` is about −9·10⁻¹⁶, so base tap 96, `Math.floor(x + Math.cos(angle) · 5)`, gives x − 1 for every x ≤ 16, while `NftMarker.TapOffsets` has (0, −5) there. A feature at a grid column x ≤ 16, which only an image narrower than 340 pixels has, therefore takes its tap-96 entry from a different pixel in the program than in the model.
- `Math.atan2` is not modelled. The base variant's orientation is kept as the pair (gradX, gradY) and the enhanced one as the octant index i, standing for i·π/4.
- Python's `float(x)` and `float(y)` coordinates are kept as integers.
- MockMarker.ProcessedSizeFacts: it holds only for exact arithmetic. Python computes `int(dim * (1024 / longest))` in doubles, so the longest side can come out as 1023 (for example longest = 1122). The other side can also differ from ⌊dim·1024/longest⌋ by one in rare cases (for example 561 beside 1122).
- A failure of Pillow's `resize` on a side that truncates to 0 is not modelled.
- NftMarker.CreateNftMarker, EnhanceImage.CreateBetterNftMarker and EnhanceImage.EnhanceImageForTracking require a positive step, that is, sides of at least 20 (base) or 30 (enhanced) pixels. With a smaller side the JavaScript loop never ends, a behaviour a terminating method cannot return.
