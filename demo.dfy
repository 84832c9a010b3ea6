/**
 * Helpers of the demo program: drawing a detected box onto the
 * interleaved 8-bit frame, and formatting a tensor shape for the log.
 */
module Demo {
  import opened FlatIndex
  import opened PostProcessing

  // ---------------------------------------------------------------------
  // draw_bbox
  // ---------------------------------------------------------------------

  /** Border thickness in pixels. */
  const THICKNESS: int := 2

  /** C++ `%` on `int`: the quotient is truncated toward zero, so the remainder takes the sign of a. */
  function CppRem(a: int, b: int): (r: int)
    requires b > 0
    ensures -b < r < b
    ensures a >= 0 ==> r >= 0
    ensures a <= 0 ==> r <= 0
    ensures (a - r) % b == 0
  {
    if a >= 0 then
      DivModUnique(a - a % b, b, a / b, 0);
      a % b
    else
      var q, m := (-a) / b, (-a) % b;
      assert a + m == (-q) * b;
      DivModUnique(a + m, b, -q, 0);
      -m
  }

  /** Box colour (red, green, blue) for a class id: red, green or blue by class id % 3, black otherwise. */
  function Colour(classId: int): (rgb: seq<byte>)
    ensures |rgb| == 3
  {
    match CppRem(classId, 3)
    case 0 => [255, 0, 0]
    case 1 => [0, 255, 0]
    case 2 => [0, 0, 255]
    case _ => [0, 0, 0]
  }

  /** A non-negative class id gets exactly one full channel, and the colours repeat every three classes. */
  lemma ColourOfClass(classId: int)
    requires classId >= 0
    ensures Colour(classId)[classId % 3] == 255
    ensures forall c :: 0 <= c < 3 && c != classId % 3 ==> Colour(classId)[c] == 0
    ensures Colour(classId + 3) == Colour(classId)
  {
    assert (classId + 3) % 3 == classId % 3;
  }

  /** A negative class id that is not a multiple of three would be drawn black. */
  lemma ColourOfNegativeClass(classId: int)
    requires classId < 0 && classId % 3 != 0
    ensures Colour(classId) == [0, 0, 0]
  {
  }

  /** The clamped corners the drawing loops run between. */
  datatype Corners = Corners(x1: int, y1: int, x2: int, y2: int)

  function ClampCorners(width: int, height: int, box: Rect): (k: Corners)
    ensures k.x1 >= 0 && k.y1 >= 0 && k.x2 <= width - 1 && k.y2 <= height - 1
    ensures k.x1 == box.x || k.x1 == 0
    ensures k.y1 == box.y || k.y1 == 0
    ensures k.x2 == box.x + box.width || k.x2 == width - 1
    ensures k.y2 == box.y + box.height || k.y2 == height - 1
  {
    Corners(Max(0, box.x), Max(0, box.y), Min(width - 1, box.x + box.width), Min(height - 1, box.y + box.height))
  }

  /** Pixel (x, y) lies on horizontal line y0 between columns lo and hi, inside the frame. */
  predicate OnRow(height: int, y0: int, lo: int, hi: int, x: int, y: int) {
    y == y0 && 0 <= y0 < height && lo <= x <= hi
  }

  /** Pixel (x, y) lies on vertical line x0 between rows lo and hi, inside the frame. */
  predicate OnColumn(width: int, x0: int, lo: int, hi: int, x: int, y: int) {
    x == x0 && 0 <= x0 < width && lo <= y <= hi
  }

  /** Pixel (x, y) is on one of the four lines drawn at offset t from the clamped edges. */
  predicate OnRing(width: int, height: int, k: Corners, t: int, x: int, y: int) {
    || OnRow(height, k.y1 + t, k.x1, k.x2, x, y)
    || OnRow(height, k.y2 - t, k.x1, k.x2, x, y)
    || OnColumn(width, k.x1 + t, k.y1, k.y2, x, y)
    || OnColumn(width, k.x2 - t, k.y1, k.y2, x, y)
  }

  /** Pixel (x, y) is on one of the rings at offsets 0 .. n - 1. */
  predicate OnRings(width: int, height: int, k: Corners, n: int, x: int, y: int) {
    exists t :: 0 <= t < n && OnRing(width, height, k, t, x, y)
  }

  /** Pixel (x, y) is on the drawn border of the box. */
  predicate OnBorder(width: int, height: int, box: Rect, x: int, y: int): (on: bool)
    ensures on ==> 0 <= x < width && 0 <= y < height
  {
    OnRings(width, height, ClampCorners(width, height, box), THICKNESS, x, y)
  }

  /** A pixel on the border lies within two pixels of an edge of the clamped box. */
  lemma BorderNearEdge(width: int, height: int, box: Rect, x: int, y: int)
    requires OnBorder(width, height, box, x, y)
    ensures var k := ClampCorners(width, height, box);
      && 0 <= x < width && 0 <= y < height
      && (|| (k.x1 <= x <= k.x2 && (k.y1 <= y < k.y1 + THICKNESS || k.y2 - THICKNESS < y <= k.y2))
          || (k.y1 <= y <= k.y2 && (k.x1 <= x < k.x1 + THICKNESS || k.x2 - THICKNESS < x <= k.x2)))
  {
    var k := ClampCorners(width, height, box);
    var t :| 0 <= t < THICKNESS && OnRing(width, height, k, t, x, y);
  }

  /** Channel c of pixel (x, y) of an interleaved frame. */
  function PixelAt(image: seq<byte>, width: int, height: int, channels: int, x: int, y: int, c: int): byte
    requires |image| >= width * height * channels
    requires 0 <= x < width && 0 <= y < height && 0 <= c < channels
  {
    IndexBound(x, y, c, width, height, channels);
    image[Index(x, y, c, width, channels)]
  }

  /** Expected value of channel c of pixel (x, y): the colour where `painted` holds for the first three channels. */
  function Painted(painted: bool, rgb: seq<byte>, c: int, before: byte): byte
    requires |rgb| == 3 && c >= 0
  {
    if painted && c < 3 then rgb[c] else before
  }

  /** Paint channels 0, 1 and 2 of pixel (x0, y0). */
  method PaintPixel(image: array<byte>, width: int, height: int, channels: int, x0: int, y0: int, rgb: seq<byte>)
    requires channels >= 3 && image.Length >= width * height * channels && |rgb| == 3
    requires 0 <= x0 < width && 0 <= y0 < height
    modifies image
    ensures forall x, y, c :: 0 <= x < width && 0 <= y < height && 0 <= c < channels ==>
      PixelAt(image[..], width, height, channels, x, y, c)
        == Painted(x == x0 && y == y0, rgb, c, PixelAt(old(image[..]), width, height, channels, x, y, c))
    ensures forall i :: 0 <= i < image.Length && i >= width * height * channels ==> image[i] == old(image[i])
  {
    IndexBound(x0, y0, 2, width, height, channels);
    var base := Index(x0, y0, 0, width, channels);
    ghost var before := image[..];
    image[base] := rgb[0];
    image[base + 1] := rgb[1];
    image[base + 2] := rgb[2];
    assert image[..] == before[base := rgb[0]][base + 1 := rgb[1]][base + 2 := rgb[2]];
    forall x, y, c | 0 <= x < width && 0 <= y < height && 0 <= c < channels
      ensures PixelAt(image[..], width, height, channels, x, y, c)
        == Painted(x == x0 && y == y0, rgb, c, PixelAt(before, width, height, channels, x, y, c))
    {
      IndexBound(x, y, c, width, height, channels);
      var i := Index(x, y, c, width, channels);
      if base <= i < base + 3 {
        IndexInjective(x, y, c, x0, y0, i - base, width, channels);
      }
    }
  }

  /** One horizontal line of `draw_bbox`: row y0, columns lo .. hi, skipped when y0 is outside the frame. */
  method DrawRow(image: array<byte>, width: int, height: int, channels: int, y0: int, lo: int, hi: int,
                 rgb: seq<byte>)
    requires channels >= 3 && image.Length >= width * height * channels && |rgb| == 3
    requires 0 <= lo && hi <= width - 1
    modifies image
    ensures forall x, y, c :: 0 <= x < width && 0 <= y < height && 0 <= c < channels ==>
      PixelAt(image[..], width, height, channels, x, y, c)
        == Painted(OnRow(height, y0, lo, hi, x, y), rgb, c, PixelAt(old(image[..]), width, height, channels, x, y, c))
    ensures forall i :: 0 <= i < image.Length && i >= width * height * channels ==> image[i] == old(image[i])
  {
    var x := lo;
    while x <= hi
      invariant x == lo || lo <= x <= hi + 1
      invariant forall px, py, c :: 0 <= px < width && 0 <= py < height && 0 <= c < channels ==>
        PixelAt(image[..], width, height, channels, px, py, c)
          == Painted(OnRow(height, y0, lo, x - 1, px, py), rgb, c, PixelAt(old(image[..]), width, height, channels, px, py, c))
      invariant forall i :: 0 <= i < image.Length && i >= width * height * channels ==> image[i] == old(image[i])
    {
      var y := y0;
      if y >= 0 && y < height {
        PaintPixel(image, width, height, channels, x, y, rgb);
      }
      x := x + 1;
    }
    assert forall px, py :: OnRow(height, y0, lo, x - 1, px, py) == OnRow(height, y0, lo, hi, px, py);
  }

  /** One vertical line of `draw_bbox`: column x0, rows lo .. hi, skipped when x0 is outside the frame. */
  method DrawColumn(image: array<byte>, width: int, height: int, channels: int, x0: int, lo: int, hi: int,
                    rgb: seq<byte>)
    requires channels >= 3 && image.Length >= width * height * channels && |rgb| == 3
    requires 0 <= lo && hi <= height - 1
    modifies image
    ensures forall x, y, c :: 0 <= x < width && 0 <= y < height && 0 <= c < channels ==>
      PixelAt(image[..], width, height, channels, x, y, c)
        == Painted(OnColumn(width, x0, lo, hi, x, y), rgb, c, PixelAt(old(image[..]), width, height, channels, x, y, c))
    ensures forall i :: 0 <= i < image.Length && i >= width * height * channels ==> image[i] == old(image[i])
  {
    var y := lo;
    while y <= hi
      invariant y == lo || lo <= y <= hi + 1
      invariant forall px, py, c :: 0 <= px < width && 0 <= py < height && 0 <= c < channels ==>
        PixelAt(image[..], width, height, channels, px, py, c)
          == Painted(OnColumn(width, x0, lo, y - 1, px, py), rgb, c, PixelAt(old(image[..]), width, height, channels, px, py, c))
      invariant forall i :: 0 <= i < image.Length && i >= width * height * channels ==> image[i] == old(image[i])
    {
      var x := x0;
      if x >= 0 && x < width {
        PaintPixel(image, width, height, channels, x, y, rgb);
      }
      y := y + 1;
    }
    assert forall px, py :: OnColumn(width, x0, lo, y - 1, px, py) == OnColumn(width, x0, lo, hi, px, py);
  }

  /**
   * `draw_bbox`: paint, in the colour of the class, the THICKNESS rings just
   * inside the box clamped to the frame; every other element of the frame
   * keeps its value.
   */
  method DrawBbox(image: array<byte>, width: int, height: int, channels: int, box: Rect, classId: int)
    requires channels >= 3 && image.Length >= width * height * channels
    modifies image
    ensures forall x, y, c :: 0 <= x < width && 0 <= y < height && 0 <= c < channels ==>
      PixelAt(image[..], width, height, channels, x, y, c)
        == Painted(OnBorder(width, height, box, x, y), Colour(classId), c, PixelAt(old(image[..]), width, height, channels, x, y, c))
    ensures forall i :: 0 <= i < image.Length && i >= width * height * channels ==> image[i] == old(image[i])
  {
    var corners := ClampCorners(width, height, box);
    var rgb := Colour(classId);
    var t := 0;
    while t < THICKNESS
      invariant 0 <= t <= THICKNESS
      invariant forall x, y, c :: 0 <= x < width && 0 <= y < height && 0 <= c < channels ==>
        PixelAt(image[..], width, height, channels, x, y, c)
          == Painted(OnRings(width, height, corners, t, x, y), rgb, c, PixelAt(old(image[..]), width, height, channels, x, y, c))
      invariant forall i :: 0 <= i < image.Length && i >= width * height * channels ==> image[i] == old(image[i])
    {
      DrawRing(image, width, height, channels, corners, t, rgb);
      RingsStep(width, height, corners, t);
      t := t + 1;
    }
  }

  /** One pass of the drawing loop: the top, bottom, left and right lines at offset t. */
  method DrawRing(image: array<byte>, width: int, height: int, channels: int, k: Corners, t: int, rgb: seq<byte>)
    requires channels >= 3 && image.Length >= width * height * channels && |rgb| == 3
    requires 0 <= k.x1 && k.x2 <= width - 1 && 0 <= k.y1 && k.y2 <= height - 1
    modifies image
    ensures forall x, y, c :: 0 <= x < width && 0 <= y < height && 0 <= c < channels ==>
      PixelAt(image[..], width, height, channels, x, y, c)
        == Painted(OnRing(width, height, k, t, x, y), rgb, c, PixelAt(old(image[..]), width, height, channels, x, y, c))
    ensures forall i :: 0 <= i < image.Length && i >= width * height * channels ==> image[i] == old(image[i])
  {
    DrawRow(image, width, height, channels, k.y1 + t, k.x1, k.x2, rgb);
    DrawRow(image, width, height, channels, k.y2 - t, k.x1, k.x2, rgb);
    DrawColumn(image, width, height, channels, k.x1 + t, k.y1, k.y2, rgb);
    DrawColumn(image, width, height, channels, k.x2 - t, k.y1, k.y2, rgb);
  }

  /** The rings up to offset t + 1 are those up to t and ring t. */
  lemma RingsStep(width: int, height: int, k: Corners, t: int)
    requires t >= 0
    ensures forall x, y :: OnRings(width, height, k, t + 1, x, y) <==>
      OnRings(width, height, k, t, x, y) || OnRing(width, height, k, t, x, y)
  {
    forall x, y | OnRings(width, height, k, t + 1, x, y)
      ensures OnRings(width, height, k, t, x, y) || OnRing(width, height, k, t, x, y)
    {
      var s :| 0 <= s < t + 1 && OnRing(width, height, k, s, x, y);
    }
  }

  // ---------------------------------------------------------------------
  // print_shape
  // ---------------------------------------------------------------------

  /** Decimal digits of a natural number, most significant first, without leading zeros. */
  function Digits(n: nat): (s: string)
    ensures |s| >= 1
  {
    if n < 10 then [(48 + n) as char] else Digits(n / 10) + [(48 + n % 10) as char]
  }

  /** `operator<<` of a signed integer: optional minus sign, then the digits. */
  function IntToString(n: int): (s: string)
    ensures |s| >= 1 && (n < 0 ==> s[0] == '-')
  {
    if n < 0 then "-" + Digits(-n) else Digits(n)
  }

  /** Every character of a string of digits is a decimal digit. */
  lemma {:induction false} DigitsAreDecimal(n: nat)
    ensures forall i :: 0 <= i < |Digits(n)| ==> '0' <= Digits(n)[i] <= '9'
  {
    if n >= 10 {
      DigitsAreDecimal(n / 10);
    }
  }

  /** A written integer is a minus sign at most at its head, and decimal digits. */
  lemma IntToStringChars(n: int)
    ensures forall i :: 0 <= i < |IntToString(n)| ==>
      (i == 0 && n < 0 && IntToString(n)[i] == '-') || '0' <= IntToString(n)[i] <= '9'
  {
    DigitsAreDecimal(if n < 0 then -n else n);
  }

  /** The parts separated by `sep`. */
  function Join(parts: seq<string>, sep: char): string
    requires |parts| >= 1
  {
    if |parts| == 1 then parts[0] else parts[0] + [sep] + Join(parts[1..], sep)
  }

  /** The first i dimensions written in decimal. */
  function Parts(v: seq<int>, i: int): (parts: seq<string>)
    requires 0 <= i <= |v|
    ensures |parts| == i && forall k :: 0 <= k < i ==> parts[k] == IntToString(v[k])
  {
    if i == 0 then [] else Parts(v, i - 1) + [IntToString(v[i - 1])]
  }

  /** The text the shape is written as: its dimensions in decimal, separated by 'x'. */
  function Shape(v: seq<int>): (s: string)
    requires |v| >= 1
    ensures |s| >= 2 * |v| - 1
  {
    JoinLength(Parts(v, |v|), 'x');
    Join(Parts(v, |v|), 'x')
  }

  /** Joining non-empty parts gives at least one character per part and one separator between neighbours. */
  lemma {:induction false} JoinLength(parts: seq<string>, sep: char)
    requires |parts| >= 1 && forall i :: 0 <= i < |parts| ==> |parts[i]| >= 1
    ensures |Join(parts, sep)| >= 2 * |parts| - 1
  {
    if |parts| > 1 {
      JoinLength(parts[1..], sep);
    }
  }

  /** Appending one more part to a join. */
  lemma JoinSnoc(parts: seq<string>, p: string, sep: char)
    requires |parts| >= 1
    ensures Join(parts + [p], sep) == Join(parts, sep) + [sep] + p
  {
    if |parts| > 1 {
      assert (parts + [p])[1..] == parts[1..] + [p];
      JoinSnoc(parts[1..], p, sep);
    }
  }

  /** The text written for the first i dimensions, each followed by 'x'. */
  function Leading(v: seq<int>, i: int): string
    requires 0 <= i <= |v|
  {
    if i == 0 then "" else Leading(v, i - 1) + IntToString(v[i - 1]) + "x"
  }

  /** The shape's text is the leading dimensions, each followed by 'x', then the last one. */
  lemma {:induction false} ShapeIsLeading(v: seq<int>, i: int)
    requires 1 <= i <= |v|
    ensures Join(Parts(v, i), 'x') == Leading(v, i - 1) + IntToString(v[i - 1])
  {
    if i > 1 {
      ShapeIsLeading(v, i - 1);
      JoinSnoc(Parts(v, i - 1), IntToString(v[i - 1]), 'x');
    }
  }

  /**
   * `print_shape`: write every dimension but the last followed by 'x', then
   * the last; the shape must have at least one dimension.
   */
  method PrintShape(v: seq<int>) returns (s: string)
    requires |v| >= 1
    ensures s == Shape(v)
  {
    s := "";
    var i := 0;
    while i < |v| - 1
      invariant 0 <= i <= |v| - 1
      invariant s == Leading(v, i)
    {
      s := s + IntToString(v[i]) + "x";
      i := i + 1;
    }
    ShapeIsLeading(v, |v|);
    assert Shape(v) == s + IntToString(v[|v| - 1]);
    s := s + IntToString(v[|v| - 1]);
  }

  /** A join of parts free of `sep` holds one `sep` fewer than it has parts. */
  lemma {:induction false} JoinSeparators(parts: seq<string>, sep: char)
    requires |parts| >= 1 && forall i :: 0 <= i < |parts| ==> sep !in parts[i]
    ensures multiset(Join(parts, sep))[sep] == |parts| - 1
  {
    assert sep !in multiset(parts[0]);
    if |parts| > 1 {
      JoinSeparators(parts[1..], sep);
      assert multiset(parts[0] + [sep] + Join(parts[1..], sep))
          == multiset(parts[0]) + multiset{sep} + multiset(Join(parts[1..], sep));
    }
  }

  /** The printed shape holds exactly one 'x' between each two dimensions. */
  lemma ShapeSeparators(v: seq<int>)
    requires |v| >= 1
    ensures multiset(Shape(v))['x'] == |v| - 1
  {
    var parts := Parts(v, |v|);
    forall i | 0 <= i < |parts|
      ensures 'x' !in parts[i]
    {
      IntToStringChars(v[i]);
    }
    JoinSeparators(parts, 'x');
  }

  /** Cut a string at every `sep`. */
  function Split(s: string, sep: char): (parts: seq<string>)
    ensures |parts| >= 1
  {
    if |s| == 0 then [""]
    else if s[0] == sep then [""] + Split(s[1..], sep)
    else
      var rest := Split(s[1..], sep);
      [[s[0]] + rest[0]] + rest[1..]
  }

  /** A part free of `sep`, followed by `sep` and the rest, splits into that part and the rest's parts. */
  lemma {:induction false} SplitCons(p: string, rest: string, sep: char)
    requires sep !in p
    ensures Split(p + [sep] + rest, sep) == [p] + Split(rest, sep)
  {
    if |p| > 0 {
      assert (p + [sep] + rest)[1..] == p[1..] + [sep] + rest;
      SplitCons(p[1..], rest, sep);
      assert [p[0]] + p[1..] == p;
    } else {
      assert p + [sep] + rest == [sep] + rest;
      assert ([sep] + rest)[1..] == rest;
    }
  }

  /** A string free of `sep` is a single part. */
  lemma {:induction false} SplitNone(p: string, sep: char)
    requires sep !in p
    ensures Split(p, sep) == [p]
  {
    if |p| > 0 {
      SplitNone(p[1..], sep);
      assert [p[0]] + p[1..] == p;
    }
  }

  /** Splitting a join gives back the parts, when no part contains the separator. */
  lemma {:induction false} SplitJoin(parts: seq<string>, sep: char)
    requires |parts| >= 1 && forall i :: 0 <= i < |parts| ==> sep !in parts[i]
    ensures Split(Join(parts, sep), sep) == parts
  {
    if |parts| == 1 {
      SplitNone(parts[0], sep);
    } else {
      SplitJoin(parts[1..], sep);
      SplitCons(parts[0], Join(parts[1..], sep), sep);
    }
  }

  /** Value of a string read as decimal digits. */
  function ParseNat(s: string): int {
    if |s| == 0 then 0 else ParseNat(s[..|s| - 1]) * 10 + (s[|s| - 1] as int - 48)
  }

  /** Value of a string read as an optionally signed decimal number. */
  function ParseInt(s: string): int {
    if |s| > 0 && s[0] == '-' then 0 - ParseNat(s[1..]) else ParseNat(s)
  }

  lemma {:induction false} ParseDigits(n: nat)
    ensures ParseNat(Digits(n)) == n
  {
    if n >= 10 {
      ParseDigits(n / 10);
      var s := Digits(n);
      assert s[..|s| - 1] == Digits(n / 10);
    }
  }

  /** Reading a written integer back gives the integer. */
  lemma ParseIntToString(n: int)
    ensures ParseInt(IntToString(n)) == n
  {
    if n < 0 {
      ParseDigits(-n);
      assert IntToString(n)[1..] == Digits(-n);
    } else {
      ParseDigits(n);
      DigitsAreDecimal(n);
    }
  }

  /** The printed shape determines the shape: split at 'x' and read each part back. */
  lemma ShapeRoundTrip(v: seq<int>)
    requires |v| >= 1
    ensures var parts := Split(Shape(v), 'x');
      && |parts| == |v|
      && (forall i :: 0 <= i < |v| ==> parts[i] == IntToString(v[i]))
      && (forall i :: 0 <= i < |v| ==> ParseInt(IntToString(v[i])) == v[i])
  {
    var parts := Parts(v, |v|);
    forall i | 0 <= i < |parts|
      ensures 'x' !in parts[i]
    {
      IntToStringChars(v[i]);
    }
    SplitJoin(parts, 'x');
    forall i | 0 <= i < |v|
      ensures ParseInt(IntToString(v[i])) == v[i]
    {
      ParseIntToString(v[i]);
    }
  }
}
