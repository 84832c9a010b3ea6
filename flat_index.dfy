/**
 * Row-major, channel-interleaved buffers: the element for pixel (x, y) and
 * channel c of an image `width` pixels wide with `channels` channels sits at
 * index (y * width + x) * channels + c.  This module names that encoding, its
 * decoding by division and remainder, and the facts that the buffer loops of
 * the pre-processing and drawing code rely on.
 */
module FlatIndex {

  /** An unsigned 8-bit value (`std::uint8_t`). */
  newtype byte = b: int | 0 <= b < 256

  /** Flat index of pixel (x, y), channel c. */
  function Index(x: int, y: int, c: int, width: int, channels: int): int {
    (y * width + x) * channels + c
  }

  /** Channel of flat index i. */
  function Channel(i: int, channels: int): int
    requires channels > 0
  {
    i % channels
  }

  /** Column (x coordinate) of flat index i. */
  function Column(i: int, width: int, channels: int): int
    requires width > 0 && channels > 0
  {
    (i / channels) % width
  }

  /** Row (y coordinate) of flat index i. */
  function Row(i: int, width: int, channels: int): int
    requires width > 0 && channels > 0
  {
    (i / channels) / width
  }

  lemma MulMonotone(a: int, b: int, c: int)
    requires a <= b && c >= 0
    ensures a * c <= b * c
  {
    assert b * c - a * c == (b - a) * c;
  }

  /** Euclidean division is unique: q and r are the quotient and remainder of n by d. */
  lemma DivModUnique(n: int, d: int, q: int, r: int)
    requires d > 0 && 0 <= r < d && n == q * d + r
    ensures n / d == q && n % d == r
  {
    var q', r' := n / d, n % d;
    assert n == q' * d + r';
    assert (q - q') * d == r' - r;
    if q > q' {
      MulMonotone(1, q - q', d);
    } else if q < q' {
      MulMonotone(1, q' - q, d);
    }
  }

  /** A two-level index row * cols + col stays below rows * cols. */
  lemma RowMajorBound(row: int, col: int, rows: int, cols: int)
    requires 0 <= row < rows && 0 <= col < cols
    ensures 0 <= row * cols + col < rows * cols
  {
    MulMonotone(0, row, cols);
    MulMonotone(row + 1, rows, cols);
  }

  /** Every in-range pixel and channel has its element inside the buffer. */
  lemma IndexBound(x: int, y: int, c: int, width: int, height: int, channels: int)
    requires 0 <= x < width && 0 <= y < height && 0 <= c < channels
    ensures 0 <= Index(x, y, c, width, channels) < width * height * channels
  {
    RowMajorBound(y, x, height, width);
    RowMajorBound(y * width + x, c, width * height, channels);
    assert height * width == width * height;
  }

  /** Decoding an encoded index gives back its pixel and channel. */
  lemma IndexDecode(x: int, y: int, c: int, width: int, channels: int)
    requires 0 <= x < width && y >= 0 && 0 <= c < channels
    ensures var i := Index(x, y, c, width, channels);
      Channel(i, channels) == c && Column(i, width, channels) == x && Row(i, width, channels) == y
  {
    var i := Index(x, y, c, width, channels);
    DivModUnique(i, channels, y * width + x, c);
    DivModUnique(y * width + x, width, y, x);
  }

  /** Encoding the decoded coordinates of an index gives back the index. */
  lemma IndexEncode(i: int, width: int, channels: int)
    requires i >= 0 && width > 0 && channels > 0
    ensures Index(Column(i, width, channels), Row(i, width, channels), Channel(i, channels), width, channels) == i
    ensures 0 <= Column(i, width, channels) < width && 0 <= Channel(i, channels) < channels
    ensures Row(i, width, channels) >= 0
  {
    var p := i / channels;
    assert i == p * channels + i % channels;
    assert p == (p / width) * width + p % width;
  }

  /** Two in-range coordinate triples with the same flat index are the same triple. */
  lemma IndexInjective(x1: int, y1: int, c1: int, x2: int, y2: int, c2: int, width: int, channels: int)
    requires 0 <= x1 < width && y1 >= 0 && 0 <= c1 < channels
    requires 0 <= x2 < width && y2 >= 0 && 0 <= c2 < channels
    requires Index(x1, y1, c1, width, channels) == Index(x2, y2, c2, width, channels)
    ensures x1 == x2 && y1 == y2 && c1 == c2
  {
    IndexDecode(x1, y1, c1, width, channels);
    IndexDecode(x2, y2, c2, width, channels);
  }

  /** A product of non-negative factors is non-negative. */
  lemma ProductNonNegative(a: int, b: int, c: int)
    requires a >= 0 && b >= 0 && c >= 0
    ensures a * b >= 0 && a * b * c >= 0
  {
    MulMonotone(0, a, b);
    MulMonotone(0, a * b, c);
  }
}
