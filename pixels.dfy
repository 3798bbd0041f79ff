/**
 * Pixel buffers and luminance.
 *
 * A buffer is a row-major sequence of bytes, `channels` bytes per pixel: four
 * (R, G, B, A) for a canvas' ImageData, three (R, G, B) for a Pillow image
 * converted to 'RGB' and read as a numpy array.  Luminance is kept exact as an
 * integer multiple of the real value, so no comparison depends on rounding.
 */
module Pixels {
  type byte = b: int | 0 <= b < 256

  datatype Raster = Raster(width: int, height: int, data: seq<byte>)

  /** What `getImageData(0, 0, width, height).data` holds: 4 bytes per pixel. */
  type RgbaImage = img: Raster | 0 <= img.width && 0 <= img.height && |img.data| == 4 * img.width * img.height
    witness Raster(0, 0, [])

  /** What `np.array(img)` holds for an 'RGB' image: 3 bytes per pixel. */
  type RgbImage = img: Raster | 0 <= img.width && 0 <= img.height && |img.data| == 3 * img.width * img.height
    witness Raster(0, 0, [])

  /** (x, y) is a pixel of the image. */
  predicate InImage(img: Raster, x: int, y: int)
  {
    0 <= x < img.width && 0 <= y < img.height
  }

  /** Index of the first byte of pixel (x, y): `(y * width + x) * channels`. */
  function PixelIndex(width: int, channels: int, x: int, y: int): int
  {
    (y * width + x) * channels
  }

  /** Every byte of an in-bounds pixel lies inside the buffer. */
  lemma PixelInBuffer(width: int, height: int, channels: nat, x: int, y: int)
    requires 0 <= x < width && 0 <= y < height
    ensures 0 <= PixelIndex(width, channels, x, y)
    ensures PixelIndex(width, channels, x, y) + channels <= channels * width * height
  {
    assert y * width <= (height - 1) * width by {
      MulMonotone(y, height - 1, width);
    }
    assert y * width + x + 1 <= height * width;
    MulMonotone(y * width + x + 1, height * width, channels);
    assert (y * width + x + 1) * channels == PixelIndex(width, channels, x, y) + channels;
    assert 0 <= y * width + x by { MulMonotone(0, y, width); }
    MulMonotone(0, y * width + x, channels);
  }

  lemma MulMonotone(a: int, b: int, c: nat)
    requires a <= b
    ensures a * c <= b * c
  {
  }

  /** The right and lower neighbours' indices, four bytes and one row further on. */
  lemma NeighbourIndices(width: int, channels: int, x: int, y: int)
    ensures PixelIndex(width, channels, x + 1, y) == PixelIndex(width, channels, x, y) + channels
    ensures PixelIndex(width, channels, x, y + 1) == PixelIndex(width, channels, x, y) + channels * width
  {
  }

  /** A pixel whose first byte lies inside an RGBA buffer has its R, G and B bytes inside too. */
  lemma WholePixel(img: RgbaImage, x: int, y: int)
    requires 0 <= PixelIndex(img.width, 4, x, y) < |img.data|
    ensures PixelIndex(img.width, 4, x, y) + 3 < |img.data|
  {
    var k, n := y * img.width + x, img.width * img.height;
    assert |img.data| == 4 * n;
    assert PixelIndex(img.width, 4, x, y) == 4 * k;
  }

  /** 1000 × BT.601 luminance: 1000 × (0.299 r + 0.587 g + 0.114 b). */
  function Luma601(r: byte, g: byte, b: byte): (l: int)
    ensures 0 <= l <= 255000
    ensures r == g == b ==> l == 1000 * r
  {
    299 * r + 587 * g + 114 * b
  }

  /** 10000 × the luminance numpy computes with the weights 0.2989, 0.5870, 0.1140. */
  function Luma2989(r: byte, g: byte, b: byte): (l: int)
    ensures 0 <= l <= 2549745
    ensures r == g == b ==> l == 9999 * r
  {
    2989 * r + 5870 * g + 1140 * b
  }

  /** Luminance of the pixel whose red byte is at `idx`. */
  function LumaAt(data: seq<byte>, idx: int): int
    requires 0 <= idx && idx + 2 < |data|
  {
    Luma601(data[idx], data[idx + 1], data[idx + 2])
  }

  /** 1000 × the luminance of a pixel of an RGBA image. */
  function PixelLuma(img: RgbaImage, x: int, y: int): (l: int)
    requires InImage(img, x, y)
    ensures 0 <= l <= 255000
  {
    PixelInBuffer(img.width, img.height, 4, x, y);
    LumaAt(img.data, PixelIndex(img.width, 4, x, y))
  }

  function Abs(v: int): (r: int)
    ensures r >= 0 && (r == v || r == -v)
  {
    if v < 0 then -v else v
  }
}
