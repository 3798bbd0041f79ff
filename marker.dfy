/**
 * The records written to the three marker files: the feature set (.fset), the
 * multi-scale feature set (.fset3) and the image set (.iset).  Values only; the
 * JSON text, base64 and the file writes are not part of this model.
 */
module Marker {
  import opened Pixels

  /** How a feature's orientation is obtained; the trigonometric value itself is not computed. */
  datatype Orientation =
    | GradientAngle(gradX: int, gradY: int)  // atan2(gradY, gradX), gradients in 1/1000 luminance units
    | Octant(index: int)                     // index × π/4
    | Upright                                // the constant 0.0

  datatype Feature = Feature(x: int, y: int, scale: real, orientation: Orientation, descriptor: seq<int>)

  datatype FeatureSet = FeatureSet(width: int, height: int, dpi: seq<int>, features: seq<Feature>)

  datatype FeatureSet3 = FeatureSet3(width: int, height: int, features3d: seq<Feature>)

  /** One image entry; `data` holds the JPEG bytes that the file stores as base64 text. */
  datatype ImageEntry = ImageEntry(width: int, height: int, data: seq<byte>, format: string)

  datatype ImageSet = ImageSet(images: seq<ImageEntry>)

  /** The three files written together. */
  datatype MarkerFiles = MarkerFiles(featureSet: FeatureSet, featureSet3: FeatureSet3, imageSet: ImageSet)

  const DescriptorLength: nat := 128

  /** Some feature of fs sits at the point (x, y). */
  predicate HasFeatureAt(fs: seq<Feature>, x: int, y: int)
  {
    exists i :: 0 <= i < |fs| && fs[i].x == x && fs[i].y == y
  }

  /** Feature a comes before feature b in a row-major scan. */
  predicate Precedes(a: Feature, b: Feature)
  {
    a.y < b.y || (a.y == b.y && a.x < b.x)
  }

  /** Features strictly in row-major order: y outer, x inner, no two at one point. */
  predicate RowMajor(fs: seq<Feature>)
  {
    forall i, j :: 0 <= i < j < |fs| ==> Precedes(fs[i], fs[j])
  }
}
