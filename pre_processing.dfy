/**
 * Pre-processing of a camera frame for the network: an aspect-preserving
 * nearest-neighbour resize into a zero-padded, centred letterbox, then the
 * conversion of the interleaved 8-bit image into a planar, scaled and
 * mean-subtracted tensor ("blob").
 *
 * Floating-point ratios are modelled exactly: `static_cast<int>` of a
 * non-negative quotient becomes integer division.
 */
module PreProcessing {
  import opened FlatIndex

  // ---------------------------------------------------------------------
  // resize_image_aspect_ratio
  // ---------------------------------------------------------------------

  /** The size of the resized image inside the target and its offset there. */
  datatype Geometry = Geometry(newWidth: int, newHeight: int, padX: int, padY: int)

  predicate ValidSizes(imageWidth: int, imageHeight: int, targetWidth: int, targetHeight: int) {
    imageWidth > 0 && imageHeight > 0 && targetWidth > 0 && targetHeight > 0
  }

  /**
   * The letterbox geometry.  The image is wider than the target, in aspect,
   * exactly when iw / ih > tw / th, that is iw * th > tw * ih; then the width
   * binds, otherwise the height does, and the other side is truncated.
   */
  function Fit(imageWidth: int, imageHeight: int, targetWidth: int, targetHeight: int): (g: Geometry)
    requires ValidSizes(imageWidth, imageHeight, targetWidth, targetHeight)
    ensures 0 <= g.newWidth <= targetWidth && 0 <= g.newHeight <= targetHeight
    ensures 0 <= g.padX && g.padX + g.newWidth <= targetWidth
    ensures 0 <= g.padY && g.padY + g.newHeight <= targetHeight
  {
    var widthBinds := imageWidth * targetHeight > targetWidth * imageHeight;
    var newWidth := if widthBinds then targetWidth else (targetHeight * imageWidth) / imageHeight;
    var newHeight := if widthBinds then (targetWidth * imageHeight) / imageWidth else targetHeight;
    FitBounds(imageWidth, imageHeight, targetWidth, targetHeight);
    Geometry(newWidth, newHeight, (targetWidth - newWidth) / 2, (targetHeight - newHeight) / 2)
  }

  /**
   * The letterbox keeps the aspect ratio: the binding side fills its target,
   * the other is the exact scaled length truncated, and the padding centres
   * the image to within one pixel.
   */
  lemma FitAspect(imageWidth: int, imageHeight: int, targetWidth: int, targetHeight: int)
    requires ValidSizes(imageWidth, imageHeight, targetWidth, targetHeight)
    ensures var g := Fit(imageWidth, imageHeight, targetWidth, targetHeight);
      && (imageWidth * targetHeight > targetWidth * imageHeight ==>
            && g.newWidth == targetWidth
            && g.newHeight * imageWidth <= targetWidth * imageHeight < (g.newHeight + 1) * imageWidth)
      && (imageWidth * targetHeight <= targetWidth * imageHeight ==>
            && g.newHeight == targetHeight
            && g.newWidth * imageHeight <= targetHeight * imageWidth < (g.newWidth + 1) * imageHeight)
      && 2 * g.padX <= targetWidth - g.newWidth <= 2 * g.padX + 1
      && 2 * g.padY <= targetHeight - g.newHeight <= 2 * g.padY + 1
  {
    FitBounds(imageWidth, imageHeight, targetWidth, targetHeight);
  }

  /** The truncated side lies between 0 and its target. */
  lemma FitBounds(imageWidth: int, imageHeight: int, targetWidth: int, targetHeight: int)
    requires ValidSizes(imageWidth, imageHeight, targetWidth, targetHeight)
    ensures imageWidth * targetHeight > targetWidth * imageHeight ==>
      var h := (targetWidth * imageHeight) / imageWidth;
      0 <= h <= targetHeight && h * imageWidth <= targetWidth * imageHeight < (h + 1) * imageWidth
    ensures imageWidth * targetHeight <= targetWidth * imageHeight ==>
      var w := (targetHeight * imageWidth) / imageHeight;
      0 <= w <= targetWidth && w * imageHeight <= targetHeight * imageWidth < (w + 1) * imageHeight
  {
    if imageWidth * targetHeight > targetWidth * imageHeight {
      ProductNonNegative(targetWidth, imageHeight, 1);
      assert imageWidth * targetHeight == targetHeight * imageWidth;
      FloorBounds(targetWidth * imageHeight, imageWidth, targetHeight);
    } else {
      ProductNonNegative(targetHeight, imageWidth, 1);
      assert targetWidth * imageHeight == imageHeight * targetWidth;
      FloorBounds(targetHeight * imageWidth, imageHeight, targetWidth);
    }
  }

  /** Truncated division of a non-negative n by d lies in [0, m] when n <= m * d, and brackets n. */
  lemma FloorBounds(n: int, d: int, m: int)
    requires d > 0 && 0 <= n <= m * d
    ensures 0 <= n / d <= m
    ensures (n / d) * d <= n < (n / d + 1) * d
  {
    var q, r := n / d, n % d;
    assert n == q * d + r;
    if q > m {
      MulMonotone(m + 1, q, d);
    }
    if q < 0 {
      MulMonotone(q, -1, d);
    }
  }

  /** Truncated division by a positive d is monotone. */
  lemma DivMonotone(a: int, b: int, d: int)
    requires 0 <= a <= b && d > 0
    ensures a / d <= b / d
  {
    var qa, qb := a / d, b / d;
    assert a == qa * d + a % d;
    assert b == qb * d + b % d;
    if qa > qb {
      MulMonotone(qb + 1, qa, d);
    }
  }

  /**
   * The source column (or row) sampled for destination column x of a
   * resized side of length `resized`: x scaled by size / resized, truncated,
   * and clamped to the last column.
   */
  function SourceCoord(x: int, size: int, resized: int): (s: int)
    requires x >= 0 && size > 0 && resized > 0
    ensures 0 <= s < size
  {
    ProductNonNegative(x, size, 1);
    var s := (x * size) / resized;
    if s < size - 1 then s else size - 1
  }

  /** The sampling is monotone: a later destination column never samples an earlier source column. */
  lemma SourceCoordMonotone(x1: int, x2: int, size: int, resized: int)
    requires 0 <= x1 <= x2 && size > 0 && resized > 0
    ensures SourceCoord(x1, size, resized) <= SourceCoord(x2, size, resized)
  {
    MulMonotone(x1, x2, size);
    ProductNonNegative(x1, size, 1);
    DivMonotone(x1 * size, x2 * size, resized);
  }

  /** Resizing a side to its own length samples every column in place. */
  lemma SourceCoordIdentity(x: int, size: int)
    requires 0 <= x < size
    ensures SourceCoord(x, size, size) == x
  {
    DivModUnique(x * size, size, x, 0);
  }

  /** The element at flat index k of the target lies inside the pasted, resized image. */
  predicate Covered(imageWidth: int, imageHeight: int, channels: int, targetWidth: int, targetHeight: int, k: int)
    requires ValidSizes(imageWidth, imageHeight, targetWidth, targetHeight) && channels > 0
  {
    var g := Fit(imageWidth, imageHeight, targetWidth, targetHeight);
    && k >= 0
    && g.padX <= Column(k, targetWidth, channels) < g.padX + g.newWidth
    && g.padY <= Row(k, targetWidth, channels) < g.padY + g.newHeight
  }

  /**
   * Channel c of pixel (x, y) of the resized image: the source pixel at the
   * sampled column and row.
   */
  function Sampled(image: seq<byte>, imageWidth: int, imageHeight: int, channels: int,
                   targetWidth: int, targetHeight: int, x: int, y: int, c: int): (v: byte)
    requires ValidSizes(imageWidth, imageHeight, targetWidth, targetHeight) && channels > 0
    requires |image| >= imageWidth * imageHeight * channels
    requires var g := Fit(imageWidth, imageHeight, targetWidth, targetHeight);
      0 <= x < g.newWidth && 0 <= y < g.newHeight && 0 <= c < channels
    ensures exists sx, sy :: (&& 0 <= sx < imageWidth && 0 <= sy < imageHeight
                              && 0 <= Index(sx, sy, c, imageWidth, channels) < |image|
                              && v == image[Index(sx, sy, c, imageWidth, channels)])
  {
    var g := Fit(imageWidth, imageHeight, targetWidth, targetHeight);
    var sx := SourceCoord(x, imageWidth, g.newWidth);
    var sy := SourceCoord(y, imageHeight, g.newHeight);
    IndexBound(sx, sy, c, imageWidth, imageHeight, channels);
    image[Index(sx, sy, c, imageWidth, channels)]
  }

  /** Sampled value of the covered target element k. */
  function SampledAt(image: seq<byte>, imageWidth: int, imageHeight: int, channels: int,
                     targetWidth: int, targetHeight: int, k: int): byte
    requires ValidSizes(imageWidth, imageHeight, targetWidth, targetHeight) && channels > 0
    requires |image| >= imageWidth * imageHeight * channels
    requires Covered(imageWidth, imageHeight, channels, targetWidth, targetHeight, k)
  {
    var g := Fit(imageWidth, imageHeight, targetWidth, targetHeight);
    IndexEncode(k, targetWidth, channels);
    Sampled(image, imageWidth, imageHeight, channels, targetWidth, targetHeight,
            Column(k, targetWidth, channels) - g.padX, Row(k, targetWidth, channels) - g.padY, Channel(k, channels))
  }

  /** Position of the covered target element k in the order the resize loops write. */
  function WriteOrder(imageWidth: int, imageHeight: int, channels: int, targetWidth: int, targetHeight: int,
                      k: int): (order: int)
    requires ValidSizes(imageWidth, imageHeight, targetWidth, targetHeight) && channels > 0
    requires Covered(imageWidth, imageHeight, channels, targetWidth, targetHeight, k)
    ensures var g := Fit(imageWidth, imageHeight, targetWidth, targetHeight);
      0 <= order < g.newWidth * g.newHeight * channels
  {
    var g := Fit(imageWidth, imageHeight, targetWidth, targetHeight);
    IndexEncode(k, targetWidth, channels);
    IndexBound(Column(k, targetWidth, channels) - g.padX, Row(k, targetWidth, channels) - g.padY,
               Channel(k, channels), g.newWidth, g.newHeight, channels);
    Index(Column(k, targetWidth, channels) - g.padX, Row(k, targetWidth, channels) - g.padY,
          Channel(k, channels), g.newWidth, channels)
  }

  /** Element k of `base` after the first t writes of the resize loops. */
  function PartlyResized(image: seq<byte>, imageWidth: int, imageHeight: int, channels: int,
                         targetWidth: int, targetHeight: int, base: seq<byte>, k: int, t: int): byte
    requires ValidSizes(imageWidth, imageHeight, targetWidth, targetHeight) && channels > 0
    requires |image| >= imageWidth * imageHeight * channels && 0 <= k < |base|
  {
    if Covered(imageWidth, imageHeight, channels, targetWidth, targetHeight, k)
       && WriteOrder(imageWidth, imageHeight, channels, targetWidth, targetHeight, k) < t
    then SampledAt(image, imageWidth, imageHeight, channels, targetWidth, targetHeight, k)
    else base[k]
  }

  /** Element k of `base` once the resized image is pasted over it. */
  function Resized(image: seq<byte>, imageWidth: int, imageHeight: int, channels: int,
                   targetWidth: int, targetHeight: int, base: seq<byte>, k: int): (v: byte)
    requires ValidSizes(imageWidth, imageHeight, targetWidth, targetHeight) && channels > 0
    requires |image| >= imageWidth * imageHeight * channels && 0 <= k < |base|
    ensures v == base[k] || v in image
  {
    if Covered(imageWidth, imageHeight, channels, targetWidth, targetHeight, k)
    then SampledAt(image, imageWidth, imageHeight, channels, targetWidth, targetHeight, k)
    else base[k]
  }

  /**
   * Write number t = Index(x, y, c, newWidth, channels) goes to target pixel
   * (x + padX, y + padY), channel c, and changes nothing else.
   */
  lemma ResizeStep(image: seq<byte>, imageWidth: int, imageHeight: int, channels: int,
                   targetWidth: int, targetHeight: int, base: seq<byte>, x: int, y: int, c: int)
    requires ValidSizes(imageWidth, imageHeight, targetWidth, targetHeight) && channels > 0
    requires |image| >= imageWidth * imageHeight * channels
    requires |base| >= targetWidth * targetHeight * channels
    requires var g := Fit(imageWidth, imageHeight, targetWidth, targetHeight);
      0 <= x < g.newWidth && 0 <= y < g.newHeight && 0 <= c < channels
    ensures var g := Fit(imageWidth, imageHeight, targetWidth, targetHeight);
      var t := Index(x, y, c, g.newWidth, channels);
      var dst := Index(x + g.padX, y + g.padY, c, targetWidth, channels);
      && 0 <= dst < targetWidth * targetHeight * channels
      && PartlyResized(image, imageWidth, imageHeight, channels, targetWidth, targetHeight, base, dst, t + 1)
         == Sampled(image, imageWidth, imageHeight, channels, targetWidth, targetHeight, x, y, c)
      && forall k :: 0 <= k < |base| && k != dst ==>
           PartlyResized(image, imageWidth, imageHeight, channels, targetWidth, targetHeight, base, k, t + 1)
           == PartlyResized(image, imageWidth, imageHeight, channels, targetWidth, targetHeight, base, k, t)
  {
    var g := Fit(imageWidth, imageHeight, targetWidth, targetHeight);
    var t := Index(x, y, c, g.newWidth, channels);
    var dst := Index(x + g.padX, y + g.padY, c, targetWidth, channels);
    IndexBound(x + g.padX, y + g.padY, c, targetWidth, targetHeight, channels);
    IndexDecode(x + g.padX, y + g.padY, c, targetWidth, channels);
    assert Column(dst, targetWidth, channels) == x + g.padX && Row(dst, targetWidth, channels) == y + g.padY;
    assert Channel(dst, channels) == c;
    assert Covered(imageWidth, imageHeight, channels, targetWidth, targetHeight, dst);
    assert WriteOrder(imageWidth, imageHeight, channels, targetWidth, targetHeight, dst) == t;
    forall k | 0 <= k < |base| && k != dst
      ensures PartlyResized(image, imageWidth, imageHeight, channels, targetWidth, targetHeight, base, k, t + 1)
           == PartlyResized(image, imageWidth, imageHeight, channels, targetWidth, targetHeight, base, k, t)
    {
      if Covered(imageWidth, imageHeight, channels, targetWidth, targetHeight, k)
         && WriteOrder(imageWidth, imageHeight, channels, targetWidth, targetHeight, k) == t
      {
        IndexEncode(k, targetWidth, channels);
        IndexInjective(Column(k, targetWidth, channels) - g.padX, Row(k, targetWidth, channels) - g.padY,
                       Channel(k, channels), x, y, c, g.newWidth, channels);
        assert false;
      }
    }
  }

  /** Every covered element is written by one of the newWidth * newHeight * channels writes. */
  lemma ResizeComplete(image: seq<byte>, imageWidth: int, imageHeight: int, channels: int,
                       targetWidth: int, targetHeight: int, base: seq<byte>, k: int)
    requires ValidSizes(imageWidth, imageHeight, targetWidth, targetHeight) && channels > 0
    requires |image| >= imageWidth * imageHeight * channels && 0 <= k < |base|
    ensures var g := Fit(imageWidth, imageHeight, targetWidth, targetHeight);
      PartlyResized(image, imageWidth, imageHeight, channels, targetWidth, targetHeight, base, k,
                    g.newHeight * g.newWidth * channels)
      == Resized(image, imageWidth, imageHeight, channels, targetWidth, targetHeight, base, k)
  {
    var g := Fit(imageWidth, imageHeight, targetWidth, targetHeight);
    if Covered(imageWidth, imageHeight, channels, targetWidth, targetHeight, k) {
      IndexEncode(k, targetWidth, channels);
      IndexBound(Column(k, targetWidth, channels) - g.padX, Row(k, targetWidth, channels) - g.padY,
                 Channel(k, channels), g.newWidth, g.newHeight, channels);
      assert g.newWidth * g.newHeight == g.newHeight * g.newWidth;
    }
  }

  /**
   * `resize_image_aspect_ratio`, writing into a caller's buffer: every
   * element inside the pasted image becomes its nearest source element;
   * every other element keeps its value.
   */
  method ResizeInto(image: seq<byte>, imageWidth: int, imageHeight: int, channels: int,
                    targetWidth: int, targetHeight: int, resized: array<byte>)
    requires ValidSizes(imageWidth, imageHeight, targetWidth, targetHeight) && channels > 0
    requires |image| >= imageWidth * imageHeight * channels
    requires resized.Length >= targetWidth * targetHeight * channels
    modifies resized
    ensures forall k :: 0 <= k < resized.Length ==>
      resized[k] == Resized(image, imageWidth, imageHeight, channels, targetWidth, targetHeight, old(resized[..]), k)
  {
    ghost var base := resized[..];
    var g := Fit(imageWidth, imageHeight, targetWidth, targetHeight);
    var newWidth, newHeight, padX, padY := g.newWidth, g.newHeight, g.padX, g.padY;
    ghost var t := 0;
    var y := 0;
    while y < newHeight
      invariant 0 <= y <= newHeight
      invariant t == Index(0, y, 0, newWidth, channels)
      invariant forall k :: 0 <= k < resized.Length ==>
        resized[k] == PartlyResized(image, imageWidth, imageHeight, channels, targetWidth, targetHeight, base, k, t)
    {
      var x := 0;
      while x < newWidth
        invariant 0 <= x <= newWidth
        invariant t == Index(x, y, 0, newWidth, channels)
        invariant forall k :: 0 <= k < resized.Length ==>
          resized[k] == PartlyResized(image, imageWidth, imageHeight, channels, targetWidth, targetHeight, base, k, t)
      {
        ResizePixel(image, imageWidth, imageHeight, channels, targetWidth, targetHeight, resized, base, x, y);
        t := t + channels;
        assert (y * newWidth + x + 1) * channels == (y * newWidth + x) * channels + channels;
        x := x + 1;
      }
      assert (y + 1) * newWidth == y * newWidth + newWidth;
      y := y + 1;
    }
    forall k | 0 <= k < resized.Length
      ensures resized[k] == Resized(image, imageWidth, imageHeight, channels, targetWidth, targetHeight, base, k)
    {
      ResizeComplete(image, imageWidth, imageHeight, channels, targetWidth, targetHeight, base, k);
      assert Index(0, newHeight, 0, newWidth, channels) == newHeight * newWidth * channels;
    }
  }

  /**
   * The innermost loop of the resize for target pixel (x + padX, y + padY):
   * its channels become those of the sampled source pixel, write after write.
   */
  method ResizePixel(image: seq<byte>, imageWidth: int, imageHeight: int, channels: int,
                     targetWidth: int, targetHeight: int, resized: array<byte>, ghost base: seq<byte>, x: int, y: int)
    requires ValidSizes(imageWidth, imageHeight, targetWidth, targetHeight) && channels > 0
    requires |image| >= imageWidth * imageHeight * channels
    requires resized.Length == |base| >= targetWidth * targetHeight * channels
    requires var g := Fit(imageWidth, imageHeight, targetWidth, targetHeight);
      0 <= x < g.newWidth && 0 <= y < g.newHeight
    requires var g := Fit(imageWidth, imageHeight, targetWidth, targetHeight);
      forall k :: 0 <= k < resized.Length ==>
        resized[k] == PartlyResized(image, imageWidth, imageHeight, channels, targetWidth, targetHeight, base, k,
                                    Index(x, y, 0, g.newWidth, channels))
    modifies resized
    ensures var g := Fit(imageWidth, imageHeight, targetWidth, targetHeight);
      forall k :: 0 <= k < resized.Length ==>
        resized[k] == PartlyResized(image, imageWidth, imageHeight, channels, targetWidth, targetHeight, base, k,
                                    Index(x, y, 0, g.newWidth, channels) + channels)
  {
    var g := Fit(imageWidth, imageHeight, targetWidth, targetHeight);
    var newWidth, newHeight, padX, padY := g.newWidth, g.newHeight, g.padX, g.padY;
    var srcX := SourceCoord(x, imageWidth, newWidth);
    var srcY := SourceCoord(y, imageHeight, newHeight);
    ghost var t := Index(x, y, 0, newWidth, channels);
    var c := 0;
    while c < channels
      invariant 0 <= c <= channels
      invariant t == Index(x, y, c, newWidth, channels)
      invariant forall k :: 0 <= k < resized.Length ==>
        resized[k] == PartlyResized(image, imageWidth, imageHeight, channels, targetWidth, targetHeight, base, k, t)
    {
      ResizeStep(image, imageWidth, imageHeight, channels, targetWidth, targetHeight, base, x, y, c);
      IndexBound(srcX, srcY, c, imageWidth, imageHeight, channels);
      resized[((y + padY) * targetWidth + (x + padX)) * channels + c] :=
        image[(srcY * imageWidth + srcX) * channels + c];
      t := t + 1;
      c := c + 1;
    }
  }

  /** The letterboxed image: the resized image pasted, centred, on a black target. */
  function Letterboxed(image: seq<byte>, imageWidth: int, imageHeight: int, channels: int,
                       targetWidth: int, targetHeight: int): (r: seq<byte>)
    requires ValidSizes(imageWidth, imageHeight, targetWidth, targetHeight) && channels > 0
    requires |image| >= imageWidth * imageHeight * channels
    ensures |r| == targetWidth * targetHeight * channels == targetHeight * targetWidth * channels
  {
    ProductNonNegative(targetWidth, targetHeight, channels);
    assert targetWidth * targetHeight == targetHeight * targetWidth;
    var zeros := seq(targetWidth * targetHeight * channels, _ => 0 as byte);
    seq(targetWidth * targetHeight * channels, k requires 0 <= k < targetWidth * targetHeight * channels =>
      Resized(image, imageWidth, imageHeight, channels, targetWidth, targetHeight, zeros, k))
  }

  /** `resize_image_aspect_ratio`, returning a fresh zero-filled target with the image pasted in. */
  method ResizeImageAspectRatio(image: seq<byte>, imageWidth: int, imageHeight: int, channels: int,
                                targetWidth: int, targetHeight: int) returns (resized: seq<byte>)
    requires ValidSizes(imageWidth, imageHeight, targetWidth, targetHeight) && channels > 0
    requires |image| >= imageWidth * imageHeight * channels
    ensures resized == Letterboxed(image, imageWidth, imageHeight, channels, targetWidth, targetHeight)
  {
    ProductNonNegative(targetWidth, targetHeight, channels);
    var buffer := new byte[targetWidth * targetHeight * channels](_ => 0 as byte);
    ghost var zeros := buffer[..];
    assert zeros == seq(targetWidth * targetHeight * channels, _ => 0 as byte);
    ResizeInto(image, imageWidth, imageHeight, channels, targetWidth, targetHeight, buffer);
    resized := buffer[..];
  }

  /** In the letterbox, pixel (x + padX, y + padY) is the sampled source pixel. */
  lemma LetterboxedPixel(image: seq<byte>, imageWidth: int, imageHeight: int, channels: int,
                         targetWidth: int, targetHeight: int, x: int, y: int, c: int)
    requires ValidSizes(imageWidth, imageHeight, targetWidth, targetHeight) && channels > 0
    requires |image| >= imageWidth * imageHeight * channels
    requires var g := Fit(imageWidth, imageHeight, targetWidth, targetHeight);
      0 <= x < g.newWidth && 0 <= y < g.newHeight && 0 <= c < channels
    ensures var g := Fit(imageWidth, imageHeight, targetWidth, targetHeight);
      var dst := Index(x + g.padX, y + g.padY, c, targetWidth, channels);
      && 0 <= dst < targetWidth * targetHeight * channels
      && Letterboxed(image, imageWidth, imageHeight, channels, targetWidth, targetHeight)[dst]
         == Sampled(image, imageWidth, imageHeight, channels, targetWidth, targetHeight, x, y, c)
  {
    var g := Fit(imageWidth, imageHeight, targetWidth, targetHeight);
    IndexBound(x + g.padX, y + g.padY, c, targetWidth, targetHeight, channels);
    IndexDecode(x + g.padX, y + g.padY, c, targetWidth, channels);
  }

  /** Outside the pasted image the letterbox is black. */
  lemma LetterboxedPadding(image: seq<byte>, imageWidth: int, imageHeight: int, channels: int,
                           targetWidth: int, targetHeight: int, x: int, y: int, c: int)
    requires ValidSizes(imageWidth, imageHeight, targetWidth, targetHeight) && channels > 0
    requires |image| >= imageWidth * imageHeight * channels
    requires 0 <= x < targetWidth && 0 <= y < targetHeight && 0 <= c < channels
    requires var g := Fit(imageWidth, imageHeight, targetWidth, targetHeight);
      !(g.padX <= x < g.padX + g.newWidth && g.padY <= y < g.padY + g.newHeight)
    ensures var dst := Index(x, y, c, targetWidth, channels);
      && 0 <= dst < targetWidth * targetHeight * channels
      && Letterboxed(image, imageWidth, imageHeight, channels, targetWidth, targetHeight)[dst] == 0
  {
    IndexBound(x, y, c, targetWidth, targetHeight, channels);
    IndexDecode(x, y, c, targetWidth, channels);
  }

  /** Letterboxing an image to its own size leaves it unchanged. */
  lemma LetterboxedIdentity(image: seq<byte>, width: int, height: int, channels: int)
    requires width > 0 && height > 0 && channels > 0 && |image| == width * height * channels
    ensures Letterboxed(image, width, height, channels, width, height) == image
  {
    var g := Fit(width, height, width, height);
    DivModUnique(height * width, height, width, 0);
    assert g == Geometry(width, height, 0, 0);
    var r := Letterboxed(image, width, height, channels, width, height);
    forall k | 0 <= k < |image|
      ensures r[k] == image[k]
    {
      IndexEncode(k, width, channels);
      var x, y := Column(k, width, channels), Row(k, width, channels);
      if y >= height {
        MulMonotone(height, y, width);
        MulMonotone(height * width, y * width + x, channels);
        assert false;
      }
      SourceCoordIdentity(x, width);
      SourceCoordIdentity(y, height);
    }
  }

  // ---------------------------------------------------------------------
  // create_blob
  // ---------------------------------------------------------------------

  /** The interleaved channel read for blob plane c; swapping reverses three channels (RGB to BGR). */
  function ChannelOffset(c: int, swapRB: bool): (offset: int)
    ensures 0 <= c < 3 ==> 0 <= offset < 3
    ensures offset == c <==> !swapRB || c == 1
  {
    if swapRB then 2 - c else c
  }

  /** The defaults of `create_blob` and `preprocess`: scale to [0, 1], subtract no mean, swap nothing. */
  const DEFAULT_SCALE: real := 1.0 / 255.0
  const DEFAULT_MEAN: seq<real> := [0.0, 0.0, 0.0]
  const DEFAULT_SWAP_RB: bool := false
  /** The network input size `preprocess` letterboxes to by default. */
  const DEFAULT_TARGET_WIDTH: int := 640
  const DEFAULT_TARGET_HEIGHT: int := 640

  /** A blob can be made: the mean covers every channel, and swapping needs exactly three channels. */
  predicate BlobParams(channels: int, mean: seq<real>, swapRB: bool) {
    channels > 0 && |mean| >= channels && (swapRB ==> channels == 3)
  }

  /**
   * The default mean has three entries, so a call that relies on the
   * defaults can make a blob of one to three channels and of no more.
   */
  lemma DefaultBlobParams(channels: int)
    ensures BlobParams(channels, DEFAULT_MEAN, DEFAULT_SWAP_RB) <==> 1 <= channels <= 3
    ensures BlobParams(channels, DEFAULT_MEAN, true) <==> channels == 3
  {
  }

  /** With the defaults, every blob element lies in [0, 1]. */
  lemma DefaultNormalizedRange(v: byte)
    ensures 0.0 <= Normalized(v, DEFAULT_SCALE, DEFAULT_MEAN[0]) <= 1.0
  {
  }

  /** 0 <= k < planes * plane decodes into a plane below `planes` and an offset inside it. */
  lemma PlaneDecode(k: int, planes: int, plane: int)
    requires 0 <= k < planes * plane && planes > 0 && plane >= 0
    ensures plane > 0 && 0 <= k / plane < planes && 0 <= k % plane < plane
  {
    if k / plane >= planes {
      MulMonotone(planes, k / plane, plane);
    }
  }

  /** An 8-bit channel value scaled, minus the mean of its plane. */
  function Normalized(v: byte, scale: real, mean: real): (r: real)
    ensures scale >= 0.0 ==> -mean <= r <= 255.0 * scale - mean
  {
    assert scale >= 0.0 ==> 0.0 <= (v as real) * scale <= 255.0 * scale by {
      if scale >= 0.0 {
        assert (255.0 - v as real) * scale >= 0.0;
      }
    }
    (v as real) * scale - mean
  }

  /** Blob element for plane c, pixel p (p = y * width + x). */
  function BlobValue(image: seq<byte>, pixels: int, channels: int, scale: real, mean: seq<real>, swapRB: bool,
                     c: int, p: int): real
    requires BlobParams(channels, mean, swapRB) && |image| >= pixels * channels
    requires 0 <= c < channels && 0 <= p < pixels
  {
    RowMajorBound(p, ChannelOffset(c, swapRB), pixels, channels);
    Normalized(image[p * channels + ChannelOffset(c, swapRB)], scale, mean[c])
  }

  /** Element k of the blob: plane k / pixels, pixel k % pixels. */
  function BlobAt(image: seq<byte>, pixels: int, channels: int, scale: real, mean: seq<real>, swapRB: bool,
                  k: int): real
    requires BlobParams(channels, mean, swapRB) && pixels >= 0 && |image| >= pixels * channels
    requires 0 <= k < channels * pixels
  {
    PlaneDecode(k, channels, pixels);
    BlobValue(image, pixels, channels, scale, mean, swapRB, k / pixels, k % pixels)
  }

  /** The planar blob of an interleaved image of `pixels` pixels. */
  function Blob(image: seq<byte>, pixels: int, channels: int, scale: real, mean: seq<real>, swapRB: bool): (b: seq<real>)
    requires BlobParams(channels, mean, swapRB) && pixels >= 0 && |image| >= pixels * channels
    ensures |b| == channels * pixels
  {
    ProductNonNegative(channels, pixels, 1);
    seq(channels * pixels, k requires 0 <= k < channels * pixels =>
      BlobAt(image, pixels, channels, scale, mean, swapRB, k))
  }

  /** Write number k = c * pixels + p of the blob loops is blob element k. */
  lemma BlobStep(image: seq<byte>, pixels: int, channels: int, scale: real, mean: seq<real>, swapRB: bool,
                 c: int, p: int, k: int)
    requires BlobParams(channels, mean, swapRB) && |image| >= pixels * channels
    requires 0 <= c < channels && 0 <= p < pixels && k == c * pixels + p
    ensures 0 <= k < channels * pixels
    ensures 0 <= p * channels + ChannelOffset(c, swapRB) < |image|
    ensures BlobAt(image, pixels, channels, scale, mean, swapRB, k)
         == Normalized(image[p * channels + ChannelOffset(c, swapRB)], scale, mean[c])
  {
    RowMajorBound(c, p, channels, pixels);
    RowMajorBound(p, ChannelOffset(c, swapRB), pixels, channels);
    DivModUnique(k, pixels, c, p);
  }

  /** Blob element c * pixels + p is channel ChannelOffset(c) of pixel p, scaled, minus mean[c]. */
  lemma BlobElement(image: seq<byte>, pixels: int, channels: int, scale: real, mean: seq<real>, swapRB: bool,
                    c: int, p: int)
    requires BlobParams(channels, mean, swapRB) && pixels >= 0 && |image| >= pixels * channels
    requires 0 <= c < channels && 0 <= p < pixels
    ensures var k := c * pixels + p;
      var j := p * channels + ChannelOffset(c, swapRB);
      && 0 <= k < channels * pixels && 0 <= j < |image|
      && Blob(image, pixels, channels, scale, mean, swapRB)[k] == Normalized(image[j], scale, mean[c])
  {
    BlobStep(image, pixels, channels, scale, mean, swapRB, c, p, c * pixels + p);
  }

  /** Where row y of plane c starts in the blob, and that the row fits. */
  lemma BlobRowStart(c: int, y: int, channels: int, height: int, width: int)
    requires 0 <= c < channels && 0 <= y < height && width >= 0
    ensures 0 <= c * height * width + y * width
    ensures c * height * width + y * width + width <= channels * (height * width)
    ensures c * height * width == c * (height * width)
  {
    MulMonotone(0, y, width);
    MulMonotone(y + 1, height, width);
    MulMonotone(0, c, height * width);
    MulMonotone(c + 1, channels, height * width);
  }

  /**
   * One row of `create_blob`'s loops: blob plane c, image row y, which
   * occupies blob elements start .. start + width.  Everything before it is
   * already final; afterwards the row is final and nothing after it changed.
   */
  method CreateBlobRow(image: seq<byte>, width: int, height: int, channels: int, blob: array<real>,
                       scale: real, mean: seq<real>, swapRB: bool, c: int, y: int, ghost start: int)
    requires width >= 0 && height >= 0 && BlobParams(channels, mean, swapRB)
    requires |image| >= height * width * channels && blob.Length >= channels * (height * width)
    requires 0 <= c < channels && 0 <= y < height && start == c * height * width + y * width
    requires 0 <= start && start + width <= channels * (height * width)
    requires forall k :: 0 <= k < start ==> blob[k] == BlobAt(image, height * width, channels, scale, mean, swapRB, k)
    modifies blob
    ensures forall k :: 0 <= k < start + width ==>
      blob[k] == BlobAt(image, height * width, channels, scale, mean, swapRB, k)
    ensures forall k :: start + width <= k < blob.Length ==> blob[k] == old(blob[k])
  {
    BlobRowStart(c, y, channels, height, width);
    var channelOffset := if swapRB then 2 - c else c;
    var x := 0;
    while x < width
      invariant 0 <= x <= width
      invariant forall k :: 0 <= k < start + x ==> blob[k] == BlobAt(image, height * width, channels, scale, mean, swapRB, k)
      invariant forall k :: start + x <= k < blob.Length ==> blob[k] == old(blob[k])
    {
      var idxOffset := y * width + x;
      RowMajorBound(y, x, height, width);
      var blobIdx := c * height * width + idxOffset;
      var imageIdx := idxOffset * channels + channelOffset;
      BlobStep(image, height * width, channels, scale, mean, swapRB, c, idxOffset, blobIdx);
      blob[blobIdx] := Normalized(image[imageIdx], scale, mean[c]);
      x := x + 1;
    }
  }

  /**
   * `create_blob` into a caller's buffer: blob element c * height * width
   * + y * width + x becomes channel ChannelOffset(c) of pixel (x, y),
   * scaled, minus mean[c]; the rest of the buffer keeps its values.
   */
  method CreateBlobInto(image: seq<byte>, width: int, height: int, channels: int, blob: array<real>,
                        scale: real := DEFAULT_SCALE, mean: seq<real> := DEFAULT_MEAN,
                        swapRB: bool := DEFAULT_SWAP_RB)
    requires width >= 0 && height >= 0 && BlobParams(channels, mean, swapRB)
    requires |image| >= height * width * channels && blob.Length >= channels * (height * width)
    modifies blob
    ensures blob[..] == Blob(image, height * width, channels, scale, mean, swapRB)
                        + old(blob[..])[channels * (height * width)..]
  {
    ghost var base := blob[..];
    ghost var pixels := height * width;
    ProductNonNegative(height, width, channels);
    ghost var start := 0;
    var c := 0;
    while c < channels
      invariant 0 <= c <= channels && start == c * pixels && 0 <= start <= channels * pixels
      invariant forall k :: 0 <= k < start ==> blob[k] == BlobAt(image, pixels, channels, scale, mean, swapRB, k)
      invariant forall k :: start <= k < blob.Length ==> blob[k] == base[k]
    {
      var y := 0;
      while y < height
        invariant 0 <= y <= height && start == c * pixels + y * width && 0 <= start <= channels * pixels
        invariant forall k :: 0 <= k < start ==> blob[k] == BlobAt(image, pixels, channels, scale, mean, swapRB, k)
        invariant forall k :: start <= k < blob.Length ==> blob[k] == base[k]
      {
        BlobRowStart(c, y, channels, height, width);
        CreateBlobRow(image, width, height, channels, blob, scale, mean, swapRB, c, y, start);
        start := start + width;
        y := y + 1;
      }
      assert start == (c + 1) * pixels;
      MulMonotone(c + 1, channels, pixels);
      c := c + 1;
    }
    MulMonotone(0, channels, pixels);
    assert blob[..] == Blob(image, pixels, channels, scale, mean, swapRB) + base[channels * pixels..];
  }

  /** `create_blob`, returning a fresh blob of channels * width * height elements. */
  method CreateBlob(image: seq<byte>, width: int, height: int, channels: int, scale: real := DEFAULT_SCALE,
                    mean: seq<real> := DEFAULT_MEAN, swapRB: bool := DEFAULT_SWAP_RB) returns (blob: seq<real>)
    requires width >= 0 && height >= 0 && BlobParams(channels, mean, swapRB)
    requires |image| >= height * width * channels
    ensures blob == Blob(image, height * width, channels, scale, mean, swapRB)
  {
    ProductNonNegative(channels, width, height);
    assert channels * width * height == channels * (height * width);
    var buffer := new real[channels * width * height];
    CreateBlobInto(image, width, height, channels, buffer, scale, mean, swapRB);
    blob := buffer[..];
  }

  /** Plane c of the blob at pixel (x, y) is channel ChannelOffset(c) of that pixel, scaled, minus mean[c]. */
  lemma BlobPixel(image: seq<byte>, width: int, height: int, channels: int, scale: real, mean: seq<real>,
                  swapRB: bool, x: int, y: int, c: int)
    requires width >= 0 && height >= 0 && BlobParams(channels, mean, swapRB)
    requires |image| >= height * width * channels
    requires 0 <= x < width && 0 <= y < height && 0 <= c < channels
    ensures var k := c * (height * width) + y * width + x;
      var i := Index(x, y, ChannelOffset(c, swapRB), width, channels);
      && 0 <= k < channels * (height * width) && 0 <= i < |image|
      && Blob(image, height * width, channels, scale, mean, swapRB)[k] == Normalized(image[i], scale, mean[c])
  {
    RowMajorBound(y, x, height, width);
    BlobElement(image, height * width, channels, scale, mean, swapRB, c, y * width + x);
  }

  /** Swapping the channels twice is no swap. */
  lemma ChannelOffsetInvolution(c: int, channels: int, swapRB: bool)
    requires 0 <= c < channels && (swapRB ==> channels == 3)
    ensures 0 <= ChannelOffset(c, swapRB) < channels
    ensures ChannelOffset(ChannelOffset(c, swapRB), swapRB) == c
  {
  }

  /** Swapping reads plane 0 from channel 2 and plane 2 from channel 0; plane 1 keeps channel 1. */
  lemma BlobSwapped(image: seq<byte>, pixels: int, scale: real, mean: seq<real>, p: int)
    requires BlobParams(3, mean, true) && |image| >= pixels * 3 && 0 <= p < pixels
    ensures 0 <= p * 3 && p * 3 + 2 < |image| && 3 * pixels <= |image|
    ensures var b := Blob(image, pixels, 3, scale, mean, true);
      && |b| == 3 * pixels
      && b[p] == Normalized(image[p * 3 + 2], scale, mean[0])
      && b[pixels + p] == Normalized(image[p * 3 + 1], scale, mean[1])
      && b[2 * pixels + p] == Normalized(image[p * 3], scale, mean[2])
  {
    BlobElement(image, pixels, 3, scale, mean, true, 0, p);
    BlobElement(image, pixels, 3, scale, mean, true, 1, p);
    BlobElement(image, pixels, 3, scale, mean, true, 2, p);
  }

  /** Element j of an interleaved image is read by exactly one blob element. */
  lemma BlobReads(pixels: int, channels: int, swapRB: bool, j: int) returns (c: int, p: int, k: int)
    requires channels > 0 && (swapRB ==> channels == 3) && pixels >= 0 && 0 <= j < pixels * channels
    ensures 0 <= c < channels && 0 <= p < pixels && k == c * pixels + p && 0 <= k < channels * pixels
    ensures j == p * channels + ChannelOffset(c, swapRB)
  {
    p := j / channels;
    var o := j % channels;
    PlaneDecode(j, pixels, channels);
    ChannelOffsetInvolution(o, channels, swapRB);
    c := ChannelOffset(o, swapRB);
    k := c * pixels + p;
    RowMajorBound(c, p, channels, pixels);
  }

  /** With a non-zero scale the blob loses nothing: equal blobs come from equal images. */
  lemma BlobInjective(image1: seq<byte>, image2: seq<byte>, pixels: int, channels: int, scale: real,
                      mean: seq<real>, swapRB: bool)
    requires BlobParams(channels, mean, swapRB) && pixels >= 0 && scale != 0.0
    requires |image1| == pixels * channels && |image2| == pixels * channels
    requires Blob(image1, pixels, channels, scale, mean, swapRB) == Blob(image2, pixels, channels, scale, mean, swapRB)
    ensures image1 == image2
  {
    forall j | 0 <= j < |image1|
      ensures image1[j] == image2[j]
    {
      var c, p, k := BlobReads(pixels, channels, swapRB, j);
      assert Blob(image1, pixels, channels, scale, mean, swapRB)[k] == Blob(image2, pixels, channels, scale, mean, swapRB)[k];
      BlobDeterminesElement(image1, image2, pixels, channels, scale, mean, swapRB, c, p);
    }
  }

  /** Blob element c * pixels + p determines the image element it reads. */
  lemma BlobDeterminesElement(image1: seq<byte>, image2: seq<byte>, pixels: int, channels: int, scale: real,
                              mean: seq<real>, swapRB: bool, c: int, p: int)
    requires BlobParams(channels, mean, swapRB) && pixels >= 0 && scale != 0.0
    requires |image1| == pixels * channels && |image2| == pixels * channels
    requires 0 <= c < channels && 0 <= p < pixels
    requires var k := c * pixels + p;
      && 0 <= k < channels * pixels
      && Blob(image1, pixels, channels, scale, mean, swapRB)[k] == Blob(image2, pixels, channels, scale, mean, swapRB)[k]
    ensures var j := p * channels + ChannelOffset(c, swapRB); 0 <= j < |image1| && image1[j] == image2[j]
  {
    var k := c * pixels + p;
    var j := p * channels + ChannelOffset(c, swapRB);
    BlobElement(image1, pixels, channels, scale, mean, swapRB, c, p);
    BlobElement(image2, pixels, channels, scale, mean, swapRB, c, p);
    NormalizedInjective(image1[j], image2[j], scale, mean[c]);
  }

  /** Scaling by a non-zero factor and subtracting the same mean is injective. */
  lemma NormalizedInjective(a: byte, b: byte, scale: real, m: real)
    requires scale != 0.0 && Normalized(a, scale, m) == Normalized(b, scale, m)
    ensures a == b
  {
    assert ((a as real) - (b as real)) * scale == 0.0;
  }

  // ---------------------------------------------------------------------
  // preprocess
  // ---------------------------------------------------------------------

  /** `preprocess`: letterbox the frame into the target size, then make the blob of it. */
  method Preprocess(image: seq<byte>, imageWidth: int, imageHeight: int, channels: int,
                    targetWidth: int := DEFAULT_TARGET_WIDTH, targetHeight: int := DEFAULT_TARGET_HEIGHT,
                    scale: real := DEFAULT_SCALE, mean: seq<real> := DEFAULT_MEAN, swapRB: bool := DEFAULT_SWAP_RB)
    returns (blob: seq<real>)
    requires ValidSizes(imageWidth, imageHeight, targetWidth, targetHeight) && BlobParams(channels, mean, swapRB)
    requires |image| >= imageWidth * imageHeight * channels
    ensures |blob| == channels * (targetHeight * targetWidth)
    ensures blob == Blob(Letterboxed(image, imageWidth, imageHeight, channels, targetWidth, targetHeight),
                         targetHeight * targetWidth, channels, scale, mean, swapRB)
  {
    var resized := ResizeImageAspectRatio(image, imageWidth, imageHeight, channels, targetWidth, targetHeight);
    assert targetWidth * targetHeight == targetHeight * targetWidth;
    blob := CreateBlob(resized, targetWidth, targetHeight, channels, scale, mean, swapRB);
  }

  /** In the network input, a pixel of the pasted image carries its sampled source pixel, scaled, minus the mean. */
  lemma PreprocessedPixel(image: seq<byte>, imageWidth: int, imageHeight: int, channels: int,
                          targetWidth: int, targetHeight: int, scale: real, mean: seq<real>, swapRB: bool,
                          x: int, y: int, c: int)
    requires ValidSizes(imageWidth, imageHeight, targetWidth, targetHeight) && BlobParams(channels, mean, swapRB)
    requires |image| >= imageWidth * imageHeight * channels
    requires var g := Fit(imageWidth, imageHeight, targetWidth, targetHeight);
      0 <= x < g.newWidth && 0 <= y < g.newHeight && 0 <= c < channels
    ensures var g := Fit(imageWidth, imageHeight, targetWidth, targetHeight);
      var k := c * (targetHeight * targetWidth) + (y + g.padY) * targetWidth + (x + g.padX);
      var o := ChannelOffset(c, swapRB);
      && 0 <= o < channels
      && 0 <= k < channels * (targetHeight * targetWidth)
      && Blob(Letterboxed(image, imageWidth, imageHeight, channels, targetWidth, targetHeight),
              targetHeight * targetWidth, channels, scale, mean, swapRB)[k]
         == Normalized(Sampled(image, imageWidth, imageHeight, channels, targetWidth, targetHeight, x, y, o), scale, mean[c])
  {
    var g := Fit(imageWidth, imageHeight, targetWidth, targetHeight);
    var o := ChannelOffset(c, swapRB);
    ChannelOffsetInvolution(c, channels, swapRB);
    var letterbox := Letterboxed(image, imageWidth, imageHeight, channels, targetWidth, targetHeight);
    var px, py := x + g.padX, y + g.padY;
    assert 0 <= px < targetWidth && 0 <= py < targetHeight;
    BlobPixel(letterbox, targetWidth, targetHeight, channels, scale, mean, swapRB, px, py, c);
    LetterboxedPixel(image, imageWidth, imageHeight, channels, targetWidth, targetHeight, x, y, o);
  }

  /** In the network input, every padding pixel carries minus the mean of its plane. */
  lemma PreprocessedPadding(image: seq<byte>, imageWidth: int, imageHeight: int, channels: int,
                            targetWidth: int, targetHeight: int, scale: real, mean: seq<real>, swapRB: bool,
                            x: int, y: int, c: int)
    requires ValidSizes(imageWidth, imageHeight, targetWidth, targetHeight) && BlobParams(channels, mean, swapRB)
    requires |image| >= imageWidth * imageHeight * channels
    requires 0 <= x < targetWidth && 0 <= y < targetHeight && 0 <= c < channels
    requires var g := Fit(imageWidth, imageHeight, targetWidth, targetHeight);
      !(g.padX <= x < g.padX + g.newWidth && g.padY <= y < g.padY + g.newHeight)
    ensures var k := c * (targetHeight * targetWidth) + y * targetWidth + x;
      && 0 <= k < channels * (targetHeight * targetWidth)
      && Blob(Letterboxed(image, imageWidth, imageHeight, channels, targetWidth, targetHeight),
              targetHeight * targetWidth, channels, scale, mean, swapRB)[k] == -mean[c]
  {
    var letterbox := Letterboxed(image, imageWidth, imageHeight, channels, targetWidth, targetHeight);
    ChannelOffsetInvolution(c, channels, swapRB);
    assert targetWidth * targetHeight * channels == targetHeight * targetWidth * channels;
    BlobPixel(letterbox, targetWidth, targetHeight, channels, scale, mean, swapRB, x, y, c);
    LetterboxedPadding(image, imageWidth, imageHeight, channels, targetWidth, targetHeight, x, y,
                       ChannelOffset(c, swapRB));
  }
}
