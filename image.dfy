/** RGBA images as the codec sees them, and the order in which it visits their pixels. */
module Image {
  import opened Bytes

  /** `Rgba<u8>`: one pixel, four 8-bit channels. */
  datatype Pixel = Pixel(r: u8, g: u8, b: u8, a: u8)

  /** An `ImageBuffer<Rgba<u8>, _>` of width `img.Length0` and height `img.Length1`:
      `img[x, y]` is the pixel that `get_pixel(x, y)` returns. */
  type Rgba = array2<Pixel>

  /** The pixels of img in the order the codec visits them: column by column (`x` in the
      outer loop, `y` in the inner one), so that pixel (x, y) comes at position
      `x * height + y` (see ScanAt). */
  ghost function Scan(img: Rgba): (s: seq<Pixel>)
    reads img
    ensures |s| == img.Length0 * img.Length1
  {
    Columns(img, img.Length0)
  }

  /** Columns 0 to n - 1 of img, one after the other. */
  ghost function Columns(img: Rgba, n: nat): (s: seq<Pixel>)
    requires n <= img.Length0
    reads img
    ensures |s| == n * img.Length1
  {
    if n == 0 then [] else Columns(img, n - 1) + Column(img, n - 1)
  }

  /** Column x of img, top to bottom. */
  ghost function Column(img: Rgba, x: nat): (s: seq<Pixel>)
    requires x < img.Length0
    reads img
    ensures |s| == img.Length1
    ensures forall y | 0 <= y < img.Length1 :: s[y] == img[x, y]
  {
    seq(img.Length1, y requires 0 <= y < img.Length1 reads img => img[x, y])
  }

  /** Pixel (x, y) is the one at its scan position. */
  lemma ScanAt(img: Rgba, x: nat, y: nat)
    requires x < img.Length0 && y < img.Length1
    ensures ScanPosition(x, y, img.Length0, img.Length1) < |Scan(img)|
    ensures Scan(img)[ScanPosition(x, y, img.Length0, img.Length1)] == img[x, y]
  {
    ColumnsAt(img, img.Length0, x, y);
  }

  /** The same, with the position written out; it is 0 only for pixel (0, 0). */
  lemma PixelAt(img: Rgba, x: nat, y: nat)
    requires x < img.Length0 && y < img.Length1
    ensures x * img.Length1 + y < |Scan(img)|
    ensures Scan(img)[x * img.Length1 + y] == img[x, y]
    ensures x == 0 && y == 0 <==> x * img.Length1 + y == 0
  {
    ColumnsAt(img, img.Length0, x, y);
    if x > 0 {
      Bytes.MulNonnegative(x - 1, img.Length1);
      assert x * img.Length1 == (x - 1) * img.Length1 + img.Length1;
    }
  }

  lemma {:induction false} ColumnsAt(img: Rgba, n: nat, x: nat, y: nat)
    requires x < n <= img.Length0 && y < img.Length1
    ensures x * img.Length1 + y < |Columns(img, n)|
    ensures Columns(img, n)[x * img.Length1 + y] == img[x, y]
  {
    var height := img.Length1;
    CoordinatesOfScanPosition(x, y, n, height);
    if x < n - 1 {
      ColumnsAt(img, n - 1, x, y);
    } else {
      assert |Columns(img, n - 1)| == x * height;
    }
  }

  /** The position of pixel (x, y) in the scan order. */
  function ScanPosition(x: nat, y: nat, width: nat, height: nat): (k: nat)
    requires x < width && y < height
    ensures k < width * height
  {
    CoordinatesOfScanPosition(x, y, width, height);
    x * height + y
  }

  /** Every position of the scan order names a pixel of the image. */
  lemma ScanCoordinatesOf(k: int, width: nat, height: nat)
    requires 0 <= k < width * height
    ensures height > 0 && 0 <= k / height < width && 0 <= k % height < height
    ensures (k / height) * height + k % height == k
  {
    if height > 0 && k / height >= width {
      Bytes.MulNonnegative(k / height - width, height);
      assert false;
    }
  }

  /** Pixel (x, y) lies at position x * height + y of the scan order, and that position
      leads back to (x, y). */
  lemma CoordinatesOfScanPosition(x: int, y: int, width: nat, height: nat)
    requires 0 <= x < width && 0 <= y < height
    ensures 0 <= x * height + y < width * height
    ensures (x * height + y) / height == x && (x * height + y) % height == y
  {
    Bytes.MulNonnegative(x, height);
    Bytes.MulNonnegative(width - x - 1, height);
    assert width * height == x * height + (width - x - 1) * height + height;
    Bytes.DivModUnique(x * height + y, height, x, y);
  }

  /** The scan order visits (x, y) no later than (x', y') when x < x', or when x == x'
      and y <= y'. */
  lemma ScanOrderMonotone(x: nat, y: nat, x': nat, y': nat, height: nat)
    requires y < height && y' < height
    requires x < x' || (x == x' && y <= y')
    ensures x * height + y <= x' * height + y'
  {
    if x < x' {
      Bytes.MulNonnegative(x' - x - 1, height);
      assert x' * height == x * height + (x' - x - 1) * height + height;
    }
  }
}
