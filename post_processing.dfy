/**
 * Detection post-processing of a YOLOv8 output tensor: box overlap (IoU),
 * greedy class-agnostic non-maximum suppression, letterbox-inverting box
 * decoding, and the decode scan over the [1, A, N] attribute-major tensor.
 *
 * Floating-point values are idealised as `real`; integers are unbounded
 * (IouNoOverflow and GetRectBounded show where the source's `int`s suffice).
 */
module PostProcessing {
  import opened FlatIndex
  import PreProcessing

  const NETWORK_WIDTH: int := 640
  const NETWORK_HEIGHT: int := 640
  const IOU_THRESHOLD: real := 0.5
  const BBOX_COORDS_OFFSET: int := 4

  /** An image-space box: top-left corner, width and height, in pixels. */
  datatype Rect = Rect(x: int, y: int, width: int, height: int) {
    function Area(): (a: int)
      ensures width >= 0 && height >= 0 ==> a >= 0
      ensures width > 0 && height > 0 ==> a >= width && a >= height
    {
      width * height
    }
  }

  /** The three parallel result arrays of `postprocess`. */
  datatype Output = Output(boxes: seq<Rect>, confs: seq<real>, classIds: seq<int>)

  function Min(a: int, b: int): int { if a < b then a else b }
  function Max(a: int, b: int): int { if a < b then b else a }

  /** Width of the overlap of two boxes; zero or negative when they do not overlap horizontally. */
  function OverlapWidth(a: Rect, b: Rect): int {
    Min(a.x + a.width, b.x + b.width) - Max(a.x, b.x)
  }

  /** Height of the overlap of two boxes; zero or negative when they do not overlap vertically. */
  function OverlapHeight(a: Rect, b: Rect): int {
    Min(a.y + a.height, b.y + b.height) - Max(a.y, b.y)
  }

  /** A positive overlap fits inside both boxes, so both have positive sides. */
  lemma OverlapWithinBoxes(a: Rect, b: Rect)
    requires OverlapWidth(a, b) > 0 && OverlapHeight(a, b) > 0
    ensures 0 < OverlapWidth(a, b) <= a.width && OverlapWidth(a, b) <= b.width
    ensures 0 < OverlapHeight(a, b) <= a.height && OverlapHeight(a, b) <= b.height
    ensures 0 < OverlapWidth(a, b) * OverlapHeight(a, b) <= a.Area()
    ensures OverlapWidth(a, b) * OverlapHeight(a, b) <= b.Area()
  {
    var w, h := OverlapWidth(a, b), OverlapHeight(a, b);
    MulMonotone(1, w, h);
    MulMonotone(w, a.width, h);
    MulMonotone(h, a.height, a.width);
    MulMonotone(w, b.width, h);
    MulMonotone(h, b.height, b.width);
  }

  /**
   * Intersection over union of two boxes.  No overlap gives 0; otherwise the
   * union is at least the intersection, which is positive, so the division is
   * defined and the ratio lies in (0, 1].
   */
  function Iou(a: Rect, b: Rect): (iou: real)
    ensures OverlapWidth(a, b) <= 0 || OverlapHeight(a, b) <= 0 ==> iou == 0.0
    ensures OverlapWidth(a, b) > 0 && OverlapHeight(a, b) > 0 ==> 0.0 < iou <= 1.0
  {
    var w := OverlapWidth(a, b);
    var h := OverlapHeight(a, b);
    if w <= 0 || h <= 0 then 0.0
    else
      OverlapWithinBoxes(a, b);
      var intersection := (w * h) as real;
      var union := (a.Area() + b.Area()) as real - intersection;
      assert union >= intersection > 0.0;
      UnitRatio(intersection, union);
      intersection / union
  }

  /** A positive quotient of a number by one at least as large lies in (0, 1]. */
  lemma UnitRatio(n: real, d: real)
    requires 0.0 < n <= d
    ensures 0.0 < n / d <= 1.0
  {
    var q := n / d;
    assert q * d == n;
    assert (1.0 - q) * d == d - n;
  }

  lemma IouSymmetric(a: Rect, b: Rect)
    ensures Iou(a, b) == Iou(b, a)
  {
  }

  /** A box with positive sides overlaps itself completely. */
  lemma IouSelf(a: Rect)
    requires a.width > 0 && a.height > 0
    ensures Iou(a, a) == 1.0
  {
    assert OverlapWidth(a, a) == a.width && OverlapHeight(a, a) == a.height;
  }

  // ---------------------------------------------------------------------
  // 32-bit integer ranges

  predicate IsInt32(v: int) { -0x8000_0000 <= v < 0x8000_0000 }

  /** Coordinates, sides and far edges strictly within 2^15 in magnitude. */
  predicate Bounded(r: Rect) {
    && -0x8000 < r.x < 0x8000 && -0x8000 < r.y < 0x8000
    && -0x8000 < r.width < 0x8000 && -0x8000 < r.height < 0x8000
    && -0x8000 < r.x + r.width < 0x8000 && -0x8000 < r.y + r.height < 0x8000
  }

  /** A product of two values below 2^15 in magnitude lies strictly within 2^30 in magnitude. */
  lemma MulBound(p: int, q: int)
    requires -0x8000 < p < 0x8000 && -0x8000 < q < 0x8000
    ensures -0x4000_0000 < p * q < 0x4000_0000
  {
    var ap := if p < 0 then -p else p;
    var aq := if q < 0 then -q else q;
    MulMonotone(aq, 0x7FFF, ap);
    assert aq * ap == ap * aq;
    if (p < 0) == (q < 0) {
      assert p * q == ap * aq;
    } else {
      assert p * q == -(ap * aq);
    }
  }

  /** On bounded boxes every `int` the overlap computation forms fits in 32 bits. */
  lemma IouNoOverflow(a: Rect, b: Rect)
    requires Bounded(a) && Bounded(b)
    ensures IsInt32(OverlapWidth(a, b)) && IsInt32(OverlapHeight(a, b))
    ensures IsInt32(a.Area()) && IsInt32(b.Area()) && IsInt32(a.Area() + b.Area())
    ensures OverlapWidth(a, b) > 0 && OverlapHeight(a, b) > 0 ==>
      IsInt32(OverlapWidth(a, b) * OverlapHeight(a, b))
  {
    MulBound(a.width, a.height);
    MulBound(b.width, b.height);
    if OverlapWidth(a, b) > 0 && OverlapHeight(a, b) > 0 {
      OverlapWithinBoxes(a, b);
      MulBound(OverlapWidth(a, b), OverlapHeight(a, b));
    }
  }

  // ---------------------------------------------------------------------
  // get_rect: from network-space centre form back to the frame

  function RMin(a: real, b: real): real { if a < b then a else b }
  function RMax(a: real, b: real): real { if a < b then b else a }

  /** `std::round` on a non-negative argument: halves round up. */
  function Round(v: real): (r: int)
    requires v >= 0.0
    ensures r >= 0 && v - 0.5 < r as real <= v + 0.5
  {
    (v + 0.5).Floor
  }

  /** `static_cast<int>(std::round(std::max(0, std::min(v, hi))))`. */
  function ClampRound(v: real, hi: int): (k: int)
    requires hi >= 0
    ensures 0 <= k <= hi
  {
    Round(RMax(0.0, RMin(v, hi as real)))
  }

  /** Clamping and rounding preserve order. */
  lemma ClampRoundMonotone(u: real, v: real, hi: int)
    requires hi >= 0
    ensures u <= v ==> ClampRound(u, hi) <= ClampRound(v, hi)
  {
  }

  /** Frame-space edges of a box, before clamping. */
  datatype Edges = Edges(left: real, top: real, right: real, bottom: real)

  /** Low edge of a centre-form extent on one axis: remove the pad, then unscale. */
  function LowEdge(centre: real, size: real, pad: real, scale: real): real
    requires scale > 0.0
  {
    (centre - size / 2.0 - pad) / scale
  }

  /** High edge of a centre-form extent on one axis. */
  function HighEdge(centre: real, size: real, pad: real, scale: real): real
    requires scale > 0.0
  {
    (centre + size / 2.0 - pad) / scale
  }

  lemma EdgesOrdered(centre: real, size: real, pad: real, scale: real)
    requires scale > 0.0
    ensures size >= 0.0 ==> LowEdge(centre, size, pad, scale) <= HighEdge(centre, size, pad, scale)
  {
    var lo, hi := centre - size / 2.0 - pad, centre + size / 2.0 - pad;
    assert hi / scale - lo / scale == (hi - lo) / scale;
  }

  /** Network-to-frame scale of the width (r_w in the source). */
  function WidthRatio(frameWidth: int): (r: real)
    requires frameWidth > 0
    ensures r > 0.0
  {
    NETWORK_WIDTH as real / frameWidth as real
  }

  /** Network-to-frame scale of the height (r_h in the source). */
  function HeightRatio(frameHeight: int): (r: real)
    requires frameHeight > 0
    ensures r > 0.0
  {
    NETWORK_HEIGHT as real / frameHeight as real
  }

  /**
   * The letterbox the network input was made with, as `get_rect` reconstructs
   * it: when r_h > r_w the width bound the resize, so the scale is r_w and the
   * pad is vertical; otherwise the scale is r_h and the pad horizontal.
   */
  datatype Letterbox = Letterbox(scale: real, padX: real, padY: real)

  function FrameLetterbox(frameWidth: int, frameHeight: int): (lb: Letterbox)
    requires frameWidth > 0 && frameHeight > 0
    ensures lb.scale > 0.0
  {
    var rw := WidthRatio(frameWidth);
    var rh := HeightRatio(frameHeight);
    if rh > rw then Letterbox(rw, 0.0, (NETWORK_HEIGHT as real - rw * frameHeight as real) / 2.0)
    else Letterbox(rh, (NETWORK_WIDTH as real - rh * frameWidth as real) / 2.0, 0.0)
  }

  /** Inverse letterbox of a network-space box (cx, cy, w, h): remove the pad, then unscale. */
  function Unletterbox(frameWidth: int, frameHeight: int, bbox: seq<real>): (e: Edges)
    requires frameWidth > 0 && frameHeight > 0 && |bbox| >= 4
    ensures bbox[2] >= 0.0 ==> e.left <= e.right
    ensures bbox[3] >= 0.0 ==> e.top <= e.bottom
  {
    RemovePad(FrameLetterbox(frameWidth, frameHeight), bbox)
  }

  /** Undo letterbox `lb` on a centre-form box: remove the pad, then unscale. */
  function RemovePad(lb: Letterbox, bbox: seq<real>): (e: Edges)
    requires lb.scale > 0.0 && |bbox| >= 4
    ensures bbox[2] >= 0.0 ==> e.left <= e.right
    ensures bbox[3] >= 0.0 ==> e.top <= e.bottom
  {
    EdgesOrdered(bbox[0], bbox[2], lb.padX, lb.scale);
    EdgesOrdered(bbox[1], bbox[3], lb.padY, lb.scale);
    Edges(LowEdge(bbox[0], bbox[2], lb.padX, lb.scale), LowEdge(bbox[1], bbox[3], lb.padY, lb.scale),
          HighEdge(bbox[0], bbox[2], lb.padX, lb.scale), HighEdge(bbox[1], bbox[3], lb.padY, lb.scale))
  }

  /**
   * `get_rect`: the box in frame pixels, its edges clamped to the frame and
   * rounded.  Both corners lie in [0, frame_width - 1] x [0, frame_height - 1];
   * a box with non-negative network size keeps non-negative sides.
   */
  function GetRect(frameWidth: int, frameHeight: int, bbox: seq<real>): (r: Rect)
    requires frameWidth > 0 && frameHeight > 0 && |bbox| >= 4
    ensures 0 <= r.x <= frameWidth - 1 && 0 <= r.y <= frameHeight - 1
    ensures 0 <= r.x + r.width <= frameWidth - 1 && 0 <= r.y + r.height <= frameHeight - 1
    ensures bbox[2] >= 0.0 ==> r.width >= 0
    ensures bbox[3] >= 0.0 ==> r.height >= 0
  {
    var e := Unletterbox(frameWidth, frameHeight, bbox);
    var left := ClampRound(e.left, frameWidth - 1);
    var right := ClampRound(e.right, frameWidth - 1);
    var top := ClampRound(e.top, frameHeight - 1);
    var bottom := ClampRound(e.bottom, frameHeight - 1);
    ClampRoundMonotone(e.left, e.right, frameWidth - 1);
    ClampRoundMonotone(e.top, e.bottom, frameHeight - 1);
    Rect(left, top, right - left, bottom - top)
  }

  /** On frames of at most 2^15 pixels a side, the decoded box keeps the IoU arithmetic within `int`. */
  lemma GetRectBounded(frameWidth: int, frameHeight: int, bbox: seq<real>)
    requires 0 < frameWidth <= 0x8000 && 0 < frameHeight <= 0x8000 && |bbox| >= 4
    ensures Bounded(GetRect(frameWidth, frameHeight, bbox))
  {
  }

  /**
   * The forward letterbox on which `get_rect` is built: a frame-space box
   * (given by its edges) scaled by min(r_w, r_h), shifted by the pad of the
   * non-binding axis and written in centre form (cx, cy, w, h).
   */
  function ForwardLetterbox(frameWidth: int, frameHeight: int, e: Edges): (bbox: seq<real>)
    requires frameWidth > 0 && frameHeight > 0
    ensures |bbox| == 4
  {
    AddPad(FrameLetterbox(frameWidth, frameHeight), e)
  }

  /** Apply letterbox `lb` to a frame-space box and write it in centre form (cx, cy, w, h). */
  function AddPad(lb: Letterbox, e: Edges): (bbox: seq<real>)
    ensures |bbox| == 4
  {
    [(e.left + e.right) / 2.0 * lb.scale + lb.padX, (e.top + e.bottom) / 2.0 * lb.scale + lb.padY,
     (e.right - e.left) * lb.scale, (e.bottom - e.top) * lb.scale]
  }

  lemma EdgeRoundTrip(lo: real, hi: real, pad: real, scale: real)
    requires scale > 0.0
    ensures LowEdge((lo + hi) / 2.0 * scale + pad, (hi - lo) * scale, pad, scale) == lo
    ensures HighEdge((lo + hi) / 2.0 * scale + pad, (hi - lo) * scale, pad, scale) == hi
  {
    assert (lo + hi) / 2.0 * scale + pad - (hi - lo) * scale / 2.0 - pad == lo * scale;
    assert (lo + hi) / 2.0 * scale + pad + (hi - lo) * scale / 2.0 - pad == hi * scale;
  }

  /** `get_rect` undoes the letterbox: Unletterbox(ForwardLetterbox(e)) == e. */
  lemma UnletterboxInverts(frameWidth: int, frameHeight: int, e: Edges)
    requires frameWidth > 0 && frameHeight > 0
    ensures Unletterbox(frameWidth, frameHeight, ForwardLetterbox(frameWidth, frameHeight, e)) == e
  {
    RemovePadInverts(FrameLetterbox(frameWidth, frameHeight), e);
  }

  /** Removing a letterbox undoes adding it, whatever its scale and pads. */
  lemma RemovePadInverts(lb: Letterbox, e: Edges)
    requires lb.scale > 0.0
    ensures RemovePad(lb, AddPad(lb, e)) == e
  {
    EdgeRoundTrip(e.left, e.right, lb.padX, lb.scale);
    EdgeRoundTrip(e.top, e.bottom, lb.padY, lb.scale);
  }

  /**
   * A box of whole pixels inside the frame, letterboxed into the network
   * input, comes back from `get_rect` exactly.
   */
  lemma GetRectInvertsLetterbox(frameWidth: int, frameHeight: int, left: int, top: int, right: int, bottom: int)
    requires frameWidth > 0 && frameHeight > 0
    requires 0 <= left < frameWidth && 0 <= right < frameWidth
    requires 0 <= top < frameHeight && 0 <= bottom < frameHeight
    ensures GetRect(frameWidth, frameHeight,
                    ForwardLetterbox(frameWidth, frameHeight, Edges(left as real, top as real, right as real, bottom as real)))
            == Rect(left, top, right - left, bottom - top)
  {
    UnletterboxInverts(frameWidth, frameHeight, Edges(left as real, top as real, right as real, bottom as real));
  }

  /**
   * The letterbox `get_rect` undoes is the one the resize builds for the
   * 640 x 640 network input, up to the resize's truncation: both bind the
   * same side and pad only across the other one, the truncated side is the
   * exactly scaled frame side to within one pixel, and the two pads along it
   * differ by at most half a pixel.
   */
  lemma FrameLetterboxMatchesFit(frameWidth: int, frameHeight: int)
    requires frameWidth > 0 && frameHeight > 0
    ensures HeightRatio(frameHeight) > WidthRatio(frameWidth) <==> frameWidth > frameHeight
    ensures var g := PreProcessing.Fit(frameWidth, frameHeight, NETWORK_WIDTH, NETWORK_HEIGHT);
      var lb := FrameLetterbox(frameWidth, frameHeight);
      frameWidth > frameHeight ==>
        && lb.scale == NETWORK_WIDTH as real / frameWidth as real
        && g.newWidth == NETWORK_WIDTH && g.padX == 0 && lb.padX == 0.0
        && g.newHeight as real <= lb.scale * frameHeight as real < g.newHeight as real + 1.0
        && -0.5 <= g.padY as real - lb.padY < 0.5
    ensures var g := PreProcessing.Fit(frameWidth, frameHeight, NETWORK_WIDTH, NETWORK_HEIGHT);
      var lb := FrameLetterbox(frameWidth, frameHeight);
      frameWidth <= frameHeight ==>
        && lb.scale == NETWORK_HEIGHT as real / frameHeight as real
        && g.newHeight == NETWORK_HEIGHT && g.padY == 0 && lb.padY == 0.0
        && g.newWidth as real <= lb.scale * frameWidth as real < g.newWidth as real + 1.0
        && -0.5 <= g.padX as real - lb.padX < 0.5
  {
    RatioOrder(frameWidth, frameHeight);
    PreProcessing.FitAspect(frameWidth, frameHeight, NETWORK_WIDTH, NETWORK_HEIGHT);
    var g := PreProcessing.Fit(frameWidth, frameHeight, NETWORK_WIDTH, NETWORK_HEIGHT);
    var lb := FrameLetterbox(frameWidth, frameHeight);
    if frameWidth > frameHeight {
      ScaledBracket(g.newHeight, frameHeight, frameWidth);
      assert 2.0 * lb.padY == 640.0 - lb.scale * frameHeight as real;
      assert 2.0 * g.padY as real <= 640.0 - g.newHeight as real <= 2.0 * g.padY as real + 1.0;
    } else {
      ScaledBracket(g.newWidth, frameWidth, frameHeight);
      assert 2.0 * lb.padX == 640.0 - lb.scale * frameWidth as real;
      assert 2.0 * g.padX as real <= 640.0 - g.newWidth as real <= 2.0 * g.padX as real + 1.0;
    }
  }

  /** 640 / h > 640 / w exactly when the frame is wider than it is high. */
  lemma RatioOrder(frameWidth: int, frameHeight: int)
    requires frameWidth > 0 && frameHeight > 0
    ensures HeightRatio(frameHeight) > WidthRatio(frameWidth) <==> frameWidth > frameHeight
  {
    var rw, rh := WidthRatio(frameWidth), HeightRatio(frameHeight);
    assert rw * frameWidth as real == 640.0 && rh * frameHeight as real == 640.0;
    if frameWidth > frameHeight {
      assert rh * frameHeight as real == rw * frameWidth as real > rw * frameHeight as real;
    } else {
      assert rh * frameHeight as real == rw * frameWidth as real <= rw * frameHeight as real;
    }
  }

  /**
   * A side m that truncates 640 * side / other lies within one pixel below
   * (640 / other) * side.
   */
  lemma ScaledBracket(m: int, side: int, other: int)
    requires other > 0 && side >= 0
    requires m * other <= 640 * side < (m + 1) * other
    ensures m as real <= (640.0 / other as real) * side as real < m as real + 1.0
  {
    var q := (640.0 / other as real) * side as real;
    assert q * other as real == (640 * side) as real;
    assert (m * other) as real == m as real * other as real;
    assert ((m + 1) * other) as real == (m as real + 1.0) * other as real;
  }

  // ---------------------------------------------------------------------
  // non_maximum_suppression

  /** The indices 0, 1, ..., n - 1 (`std::iota`). */
  function Iota(n: nat): (s: seq<int>)
    ensures |s| == n && forall k :: 0 <= k < n ==> s[k] == k
  {
    seq(n, k => k)
  }

  predicate InRange(s: seq<int>, n: int) {
    forall k :: 0 <= k < |s| ==> 0 <= s[k] < n
  }

  predicate Distinct(s: seq<int>) {
    forall p, q :: 0 <= p < q < |s| ==> s[p] != s[q]
  }

  /**
   * `order` lists every index of `scores` exactly once, by non-increasing
   * score.  Equal scores may come in any order: `std::sort` is not stable.
   */
  predicate IsScoreOrder(order: seq<int>, scores: seq<real>) {
    && |order| == |scores|
    && InRange(order, |scores|)
    && Distinct(order)
    && (forall j :: 0 <= j < |scores| ==> j in order)
    && (forall p, q :: 0 <= p < q < |order| ==> scores[order[p]] >= scores[order[q]])
  }

  lemma IotaCountAtMostOne(n: nat, v: int)
    ensures multiset(Iota(n))[v] <= 1
    ensures multiset(Iota(n))[v] == 1 <==> 0 <= v < n
  {
    if n > 0 {
      IotaCountAtMostOne(n - 1, v);
      assert Iota(n) == Iota(n - 1) + [n - 1];
    }
  }

  /** A rearrangement of 0 .. n-1 holds each of them exactly once. */
  lemma IotaPermutation(s: seq<int>, n: nat)
    requires multiset(s) == multiset(Iota(n))
    ensures |s| == n && InRange(s, n) && Distinct(s)
    ensures forall j :: 0 <= j < n ==> j in s
  {
    assert |s| == |multiset(s)| == |multiset(Iota(n))| == n;
    forall k | 0 <= k < |s|
      ensures 0 <= s[k] < n
    {
      assert s[k] in multiset(s);
      IotaCountAtMostOne(n, s[k]);
    }
    forall p, q | 0 <= p < q < |s|
      ensures s[p] != s[q]
    {
      if s[p] == s[q] {
        assert s == s[..q] + [s[q]] + s[q + 1..];
        assert s[p] in multiset(s[..q]);
        assert multiset(s)[s[q]] >= 2;
        IotaCountAtMostOne(n, s[q]);
      }
    }
    forall j | 0 <= j < n
      ensures j in s
    {
      IotaCountAtMostOne(n, j);
      assert j in multiset(s);
    }
  }

  /** Exchanges two entries of `a` (the element swaps `std::sort` performs). */
  method Swap(a: array<int>, i: int, j: int)
    requires 0 <= i < a.Length && 0 <= j < a.Length
    modifies a
    ensures a[i] == old(a[j]) && a[j] == old(a[i])
    ensures a[..] == old(a[..])[i := old(a[j])][j := old(a[i])]
    ensures multiset(a[..]) == old(multiset(a[..]))
  {
    a[i], a[j] := a[j], a[i];
  }

  /** Position of a highest-scoring entry of a[i..]. */
  method MaxScoreFrom(scores: seq<real>, a: array<int>, i: int) returns (m: int)
    requires 0 <= i < a.Length && InRange(a[..], |scores|)
    ensures i <= m < a.Length
    ensures forall q :: i <= q < a.Length ==> scores[a[q]] <= scores[a[m]]
  {
    m := i;
    var k := i + 1;
    while k < a.Length
      invariant i <= m < k <= a.Length
      invariant forall q :: i <= q < k ==> scores[a[q]] <= scores[a[m]]
    {
      if scores[a[k]] > scores[a[m]] {
        m := k;
      }
      k := k + 1;
    }
  }

  /** The first i entries of `s` are in descending score order and score at least as high as every later entry. */
  predicate SelectedPrefix(scores: seq<real>, s: seq<int>, i: int)
    requires InRange(s, |scores|) && 0 <= i <= |s|
  {
    && (forall p, q :: 0 <= p < q < i ==> scores[s[p]] >= scores[s[q]])
    && (forall p, q :: 0 <= p < i <= q < |s| ==> scores[s[p]] >= scores[s[q]])
  }

  /** Swapping a highest-scoring entry of the suffix to position i extends the selected prefix by one. */
  lemma SelectionStep(scores: seq<real>, s: seq<int>, i: int, m: int)
    requires InRange(s, |scores|) && 0 <= i <= m < |s| && SelectedPrefix(scores, s, i)
    requires forall q :: i <= q < |s| ==> scores[s[q]] <= scores[s[m]]
    ensures InRange(s[i := s[m]][m := s[i]], |scores|)
    ensures SelectedPrefix(scores, s[i := s[m]][m := s[i]], i + 1)
  {
  }

  /** One round of the selection sort: move a highest-scoring entry of a[i..] to position i. */
  method SelectNext(scores: seq<real>, a: array<int>, i: int)
    requires 0 <= i < a.Length && InRange(a[..], |scores|) && SelectedPrefix(scores, a[..], i)
    modifies a
    ensures InRange(a[..], |scores|) && SelectedPrefix(scores, a[..], i + 1)
    ensures multiset(a[..]) == old(multiset(a[..]))
  {
    var m := MaxScoreFrom(scores, a, i);
    ghost var before := a[..];
    Swap(a, i, m);
    SelectionStep(scores, before, i, m);
  }

  /**
   * The index sort at the head of `non_maximum_suppression`
   * (`std::iota`, then `std::sort` by descending score).  Any sort with this
   * contract will do; this one selects the maximum of the unsorted suffix.
   */
  method SortIndicesByScore(scores: seq<real>) returns (order: seq<int>)
    ensures IsScoreOrder(order, scores)
  {
    var n := |scores|;
    var a := new int[n](k => k);
    assert a[..] == Iota(n);
    var i := 0;
    while i < n
      invariant 0 <= i <= n && a.Length == n
      invariant InRange(a[..], n)
      invariant multiset(a[..]) == multiset(Iota(n))
      invariant SelectedPrefix(scores, a[..], i)
    {
      SelectNext(scores, a, i);
      i := i + 1;
    }
    order := a[..];
    SelectedIsScoreOrder(scores, order);
  }

  /** A rearrangement of 0 .. n-1 whose whole length is selected is a score order. */
  lemma SelectedIsScoreOrder(scores: seq<real>, s: seq<int>)
    requires multiset(s) == multiset(Iota(|scores|)) && InRange(s, |scores|) && SelectedPrefix(scores, s, |s|)
    ensures IsScoreOrder(s, scores)
  {
    IotaPermutation(s, |scores|);
  }

  /** Some already kept box overlaps the box of candidate `c` by more than IOU_THRESHOLD. */
  predicate Suppressed(boxes: seq<Rect>, kept: seq<int>, c: int): (s: bool)
    requires InRange(kept, |boxes|) && 0 <= c < |boxes|
    ensures |kept| == 0 ==> !s
    ensures s ==> boxes[c].width > 0 && boxes[c].height > 0
  {
    exists k {:trigger Iou(boxes[kept[k]], boxes[c])} :: 0 <= k < |kept| && Iou(boxes[kept[k]], boxes[c]) > IOU_THRESHOLD
  }

  lemma SuppressedSnoc(boxes: seq<Rect>, kept: seq<int>, c: int, x: int)
    requires InRange(kept, |boxes|) && 0 <= c < |boxes| && 0 <= x < |boxes|
    ensures InRange(kept + [c], |boxes|)
    ensures Suppressed(boxes, kept + [c], x) <==>
      Suppressed(boxes, kept, x) || Iou(boxes[c], boxes[x]) > IOU_THRESHOLD
  {
    var kept' := kept + [c];
    if Suppressed(boxes, kept', x) {
      var k :| 0 <= k < |kept'| && Iou(boxes[kept'[k]], boxes[x]) > IOU_THRESHOLD;
      if k < |kept| {
        assert kept[k] == kept'[k];
      }
    }
    if Suppressed(boxes, kept, x) {
      var k :| 0 <= k < |kept| && Iou(boxes[kept[k]], boxes[x]) > IOU_THRESHOLD;
      assert kept'[k] == kept[k];
    }
    if Iou(boxes[c], boxes[x]) > IOU_THRESHOLD {
      assert kept'[|kept|] == c;
    }
  }

  /**
   * Greedy suppression over the first i entries of `order`: an entry is kept
   * exactly when no box kept before it overlaps it by more than IOU_THRESHOLD.
   * Class ids play no part.
   */
  function Greedy(boxes: seq<Rect>, order: seq<int>, i: nat): (kept: seq<int>)
    requires i <= |order| && InRange(order, |boxes|)
    ensures |kept| <= i && InRange(kept, |boxes|)
  {
    if i == 0 then []
    else
      var prev := Greedy(boxes, order, i - 1);
      if Suppressed(boxes, prev, order[i - 1]) then prev else prev + [order[i - 1]]
  }

  /** No two kept boxes overlap by more than IOU_THRESHOLD. */
  predicate Separated(boxes: seq<Rect>, kept: seq<int>)
    requires InRange(kept, |boxes|)
  {
    forall a, b {:trigger Iou(boxes[kept[a]], boxes[kept[b]])} :: 0 <= a < b < |kept| ==> Iou(boxes[kept[a]], boxes[kept[b]]) <= IOU_THRESHOLD
  }

  /** Scores along `kept` never increase. */
  predicate NonIncreasing(scores: seq<real>, kept: seq<int>)
    requires InRange(kept, |scores|)
  {
    forall a, b :: 0 <= a < b < |kept| ==> scores[kept[a]] >= scores[kept[b]]
  }

  /** The entry at position p of `order` overlaps, by more than IOU_THRESHOLD, a kept box that comes earlier in `order`. */
  predicate SuppressedEarlier(boxes: seq<Rect>, order: seq<int>, kept: seq<int>, p: int)
    requires InRange(order, |boxes|) && InRange(kept, |boxes|) && 0 <= p < |order|
  {
    exists k {:trigger Iou(boxes[kept[k]], boxes[order[p]])} :: 0 <= k < |kept| && kept[k] in order[..p] && Iou(boxes[kept[k]], boxes[order[p]]) > IOU_THRESHOLD
  }

  /** Every kept entry comes from the first i entries of `order`. */
  lemma {:induction false} GreedyMembers(boxes: seq<Rect>, order: seq<int>, i: nat)
    requires i <= |order| && InRange(order, |boxes|)
    ensures forall k :: 0 <= k < |Greedy(boxes, order, i)| ==> Greedy(boxes, order, i)[k] in order[..i]
  {
    if i > 0 {
      GreedyMembers(boxes, order, i - 1);
      assert order[..i - 1] + [order[i - 1]] == order[..i];
    }
  }

  lemma {:induction false} GreedyPrefix(boxes: seq<Rect>, order: seq<int>, j: nat, i: nat)
    requires j <= i <= |order| && InRange(order, |boxes|)
    ensures |Greedy(boxes, order, j)| <= |Greedy(boxes, order, i)|
    ensures Greedy(boxes, order, j) == Greedy(boxes, order, i)[..|Greedy(boxes, order, j)|]
    decreases i
  {
    if j < i {
      GreedyPrefix(boxes, order, j, i - 1);
      GreedyGrows(boxes, order, i);
      PrefixTransitive(Greedy(boxes, order, j), Greedy(boxes, order, i - 1), Greedy(boxes, order, i));
    }
  }

  /** One step of the selection keeps what was kept and may push one more index. */
  lemma GreedyGrows(boxes: seq<Rect>, order: seq<int>, i: nat)
    requires 0 < i <= |order| && InRange(order, |boxes|)
    ensures |Greedy(boxes, order, i - 1)| <= |Greedy(boxes, order, i)|
    ensures Greedy(boxes, order, i - 1) == Greedy(boxes, order, i)[..|Greedy(boxes, order, i - 1)|]
  {
    var prev := Greedy(boxes, order, i - 1);
    if !Suppressed(boxes, prev, order[i - 1]) {
      assert (prev + [order[i - 1]])[..|prev|] == prev;
    }
  }

  /** A prefix of a prefix is a prefix. */
  lemma PrefixTransitive(a: seq<int>, b: seq<int>, c: seq<int>)
    requires |a| <= |b| <= |c| && a == b[..|a|] && b == c[..|b|]
    ensures a == c[..|a|]
  {
    assert c[..|b|][..|a|] == c[..|a|];
  }

  /** Pushing a box that no kept box overlaps by more than IOU_THRESHOLD keeps the kept boxes separated. */
  lemma SeparatedSnoc(boxes: seq<Rect>, kept: seq<int>, c: int)
    requires InRange(kept, |boxes|) && 0 <= c < |boxes| && Separated(boxes, kept) && !Suppressed(boxes, kept, c)
    ensures InRange(kept + [c], |boxes|) && Separated(boxes, kept + [c])
  {
    var kept' := kept + [c];
    forall a, b | 0 <= a < b < |kept'|
      ensures Iou(boxes[kept'[a]], boxes[kept'[b]]) <= IOU_THRESHOLD
    {
      assert kept'[a] == kept[a];
      if b < |kept| {
        assert kept'[b] == kept[b];
      }
    }
  }

  lemma {:induction false} GreedySeparated(boxes: seq<Rect>, order: seq<int>, i: nat)
    requires i <= |order| && InRange(order, |boxes|)
    ensures Separated(boxes, Greedy(boxes, order, i))
  {
    if i > 0 {
      GreedySeparated(boxes, order, i - 1);
      var prev := Greedy(boxes, order, i - 1);
      var c := order[i - 1];
      if !Suppressed(boxes, prev, c) {
        SeparatedSnoc(boxes, prev, c);
      }
    }
  }

  /** An entry that no box kept before it suppresses is kept. */
  lemma {:induction false} GreedyKept(boxes: seq<Rect>, order: seq<int>, i: nat, p: int)
    requires i <= |order| && InRange(order, |boxes|) && 0 <= p < i
    ensures !Suppressed(boxes, Greedy(boxes, order, p), order[p]) ==> order[p] in Greedy(boxes, order, i)
  {
    if i > p + 1 {
      GreedyKept(boxes, order, i - 1, p);
      GreedyGrows(boxes, order, i);
      var prev, kept := Greedy(boxes, order, i - 1), Greedy(boxes, order, i);
      if order[p] in prev {
        var k :| 0 <= k < |prev| && prev[k] == order[p];
        assert kept[k] == prev[k];
      }
    } else {
      var before := Greedy(boxes, order, p);
      if !Suppressed(boxes, before, order[p]) {
        assert Greedy(boxes, order, i) == before + [order[p]];
      }
    }
  }

  /** An entry that is not kept was suppressed by the boxes kept before it. */
  lemma GreedyDropped(boxes: seq<Rect>, order: seq<int>, i: nat, p: int)
    requires i <= |order| && InRange(order, |boxes|) && 0 <= p < i
    requires order[p] !in Greedy(boxes, order, i)
    ensures Suppressed(boxes, Greedy(boxes, order, p), order[p])
  {
    GreedyKept(boxes, order, i, p);
  }

  /** An entry that is not kept is suppressed by a box kept before it in `order`. */
  lemma GreedyCoversOne(boxes: seq<Rect>, order: seq<int>, i: nat, p: int)
    requires i <= |order| && InRange(order, |boxes|) && 0 <= p < i
    requires order[p] !in Greedy(boxes, order, i)
    ensures SuppressedEarlier(boxes, order, Greedy(boxes, order, i), p)
  {
    var kept := Greedy(boxes, order, i);
    var before := Greedy(boxes, order, p);
    GreedyPrefix(boxes, order, p, i);
    GreedyDropped(boxes, order, i, p);
    GreedyMembers(boxes, order, p);
    var k :| 0 <= k < |before| && Iou(boxes[before[k]], boxes[order[p]]) > IOU_THRESHOLD;
    assert before[k] in order[..p];
    assert kept[k] == before[k];
  }

  /** Every entry that is not kept is suppressed by a box kept before it in `order`. */
  lemma GreedyCovers(boxes: seq<Rect>, order: seq<int>, i: nat)
    requires i <= |order| && InRange(order, |boxes|)
    ensures forall p :: 0 <= p < i && order[p] !in Greedy(boxes, order, i) ==>
      SuppressedEarlier(boxes, order, Greedy(boxes, order, i), p)
  {
    forall p | 0 <= p < i && order[p] !in Greedy(boxes, order, i)
      ensures SuppressedEarlier(boxes, order, Greedy(boxes, order, i), p)
    {
      GreedyCoversOne(boxes, order, i, p);
    }
  }

  /** Appending an element not yet present keeps a sequence free of repeats. */
  lemma DistinctSnoc(s: seq<int>, x: int)
    requires Distinct(s) && x !in s
    ensures Distinct(s + [x])
  {
    var s' := s + [x];
    forall p, q | 0 <= p < q < |s'|
      ensures s'[p] != s'[q]
    {
      assert s'[p] == s[p];
      if q < |s| {
        assert s'[q] == s[q];
      }
    }
  }

  lemma {:induction false} GreedyDistinct(boxes: seq<Rect>, order: seq<int>, i: nat)
    requires i <= |order| && InRange(order, |boxes|) && Distinct(order)
    ensures Distinct(Greedy(boxes, order, i))
  {
    if i > 0 {
      GreedyDistinct(boxes, order, i - 1);
      GreedyMembers(boxes, order, i - 1);
      var prev := Greedy(boxes, order, i - 1);
      assert order[i - 1] !in order[..i - 1];
      assert order[i - 1] !in prev;
      DistinctSnoc(prev, order[i - 1]);
    }
  }

  /** Every index placed before position i of a score order scores at least as high as the entry at i. */
  lemma EarlierScoresAtLeast(scores: seq<real>, order: seq<int>, i: int, kept: seq<int>)
    requires IsScoreOrder(order, scores) && 0 <= i < |order|
    requires forall k :: 0 <= k < |kept| ==> kept[k] in order[..i]
    ensures InRange(kept, |scores|)
    ensures forall k :: 0 <= k < |kept| ==> scores[kept[k]] >= scores[order[i]]
  {
    forall k | 0 <= k < |kept|
      ensures 0 <= kept[k] < |scores| && scores[kept[k]] >= scores[order[i]]
    {
      var p :| 0 <= p < i && order[..i][p] == kept[k];
      assert order[p] == kept[k];
    }
  }

  /** Appending an index that scores no higher than any kept one keeps the scores non-increasing. */
  lemma NonIncreasingSnoc(scores: seq<real>, kept: seq<int>, c: int)
    requires InRange(kept, |scores|) && 0 <= c < |scores| && NonIncreasing(scores, kept)
    requires forall k :: 0 <= k < |kept| ==> scores[kept[k]] >= scores[c]
    ensures InRange(kept + [c], |scores|) && NonIncreasing(scores, kept + [c])
  {
    var kept' := kept + [c];
    forall a, b | 0 <= a < b < |kept'|
      ensures scores[kept'[a]] >= scores[kept'[b]]
    {
      assert kept'[a] == kept[a];
      if b < |kept| {
        assert kept'[b] == kept[b];
      }
    }
  }

  /** With `order` sorted by score, the kept scores never increase. */
  lemma {:induction false} GreedyScoresNonIncreasing(boxes: seq<Rect>, scores: seq<real>, order: seq<int>, i: nat)
    requires IsScoreOrder(order, scores) && |boxes| == |scores| && i <= |order|
    ensures NonIncreasing(scores, Greedy(boxes, order, i))
  {
    if i > 0 {
      GreedyScoresNonIncreasing(boxes, scores, order, i - 1);
      GreedyMembers(boxes, order, i - 1);
      var prev := Greedy(boxes, order, i - 1);
      var c := order[i - 1];
      EarlierScoresAtLeast(scores, order, i - 1, prev);
      NonIncreasingSnoc(scores, prev, c);
    }
  }


  /** The first entry of `order` is never suppressed. */
  lemma GreedyKeepsFirst(boxes: seq<Rect>, order: seq<int>)
    requires |order| > 0 && InRange(order, |boxes|)
    ensures |Greedy(boxes, order, |order|)| > 0 && Greedy(boxes, order, |order|)[0] == order[0]
  {
    GreedyPrefix(boxes, order, 1, |order|);
    assert Greedy(boxes, order, 1) == [order[0]];
  }

  /** `kept` is what greedy suppression keeps for some score order of the candidates. */
  ghost predicate IsNmsResult(boxes: seq<Rect>, scores: seq<real>, kept: seq<int>)
    requires |boxes| == |scores|
  {
    exists order :: IsScoreOrder(order, scores) && kept == Greedy(boxes, order, |order|)
  }

  /** A kept box scoring at least as high as candidate d overlaps it by more than IOU_THRESHOLD. */
  predicate Dominated(boxes: seq<Rect>, scores: seq<real>, kept: seq<int>, d: int)
    requires |boxes| == |scores| && InRange(kept, |boxes|) && 0 <= d < |boxes|
  {
    exists k {:trigger Iou(boxes[kept[k]], boxes[d])} :: 0 <= k < |kept| && scores[kept[k]] >= scores[d] && Iou(boxes[kept[k]], boxes[d]) > IOU_THRESHOLD
  }

  /** Every candidate left out of `kept` is dominated by a kept one. */
  predicate Covers(boxes: seq<Rect>, scores: seq<real>, kept: seq<int>)
    requires |boxes| == |scores| && InRange(kept, |boxes|)
  {
    forall d :: 0 <= d < |boxes| && d !in kept ==> Dominated(boxes, scores, kept, d)
  }

  /** A non-empty input keeps a highest-scoring candidate first. */
  predicate HighestFirst(scores: seq<real>, kept: seq<int>)
    requires InRange(kept, |scores|)
  {
    |scores| > 0 ==> |kept| > 0 && forall j :: 0 <= j < |scores| ==> scores[j] <= scores[kept[0]]
  }

  /** With `order` sorted by score, greedy suppression keeps a highest-scoring candidate first. */
  lemma GreedyHighestFirst(boxes: seq<Rect>, scores: seq<real>, order: seq<int>)
    requires IsScoreOrder(order, scores) && |boxes| == |scores|
    ensures HighestFirst(scores, Greedy(boxes, order, |order|))
  {
    var n := |order|;
    if n > 0 {
      var kept := Greedy(boxes, order, n);
      GreedyKeepsFirst(boxes, order);
      forall j | 0 <= j < n
        ensures scores[j] <= scores[kept[0]]
      {
        assert j in order;
        var p :| 0 <= p < n && order[p] == j;
        assert p == 0 || scores[order[0]] >= scores[order[p]];
      }
    }
  }

  /** With `order` sorted by score, every candidate greedy suppression drops is dominated by a kept one. */
  lemma GreedyDominates(boxes: seq<Rect>, scores: seq<real>, order: seq<int>)
    requires IsScoreOrder(order, scores) && |boxes| == |scores|
    ensures Covers(boxes, scores, Greedy(boxes, order, |order|))
  {
    var n := |order|;
    var kept := Greedy(boxes, order, n);
    forall d | 0 <= d < n && d !in kept
      ensures Dominated(boxes, scores, kept, d)
    {
      assert d in order;
      var p :| 0 <= p < n && order[p] == d;
      GreedyCoversOne(boxes, order, n, p);
      var k :| 0 <= k < |kept| && kept[k] in order[..p] && Iou(boxes[kept[k]], boxes[order[p]]) > IOU_THRESHOLD;
      var p' :| 0 <= p' < p && order[p'] == kept[k];
    }
  }

  /** What every NMS result satisfies, whichever order the sort gave equal scores. */
  lemma NmsResultProperties(boxes: seq<Rect>, scores: seq<real>, kept: seq<int>)
    requires |boxes| == |scores| && IsNmsResult(boxes, scores, kept)
    ensures |kept| <= |boxes| && InRange(kept, |boxes|) && Distinct(kept)
    ensures NonIncreasing(scores, kept) && HighestFirst(scores, kept)
    ensures Separated(boxes, kept) && Covers(boxes, scores, kept)
  {
    var order :| IsScoreOrder(order, scores) && kept == Greedy(boxes, order, |order|);
    var n := |order|;
    GreedyDistinct(boxes, order, n);
    GreedyScoresNonIncreasing(boxes, scores, order, n);
    GreedySeparated(boxes, order, n);
    GreedyHighestFirst(boxes, scores, order);
    GreedyDominates(boxes, scores, order);
  }

  /** One step of the inner loop: a candidate still kept is dropped when box c overlaps it by more than IOU_THRESHOLD. */
  method SuppressOne(boxes: seq<Rect>, c: int, x: int, keep: array<bool>)
    requires 0 <= c < |boxes| && 0 <= x < |boxes| && keep.Length == |boxes|
    modifies keep
    ensures keep[x] == (old(keep[x]) && Iou(boxes[c], boxes[x]) <= IOU_THRESHOLD)
    ensures forall y :: 0 <= y < keep.Length && y != x ==> keep[y] == old(keep[y])
  {
    if keep[x] {
      var iou := Iou(boxes[c], boxes[x]);
      if iou > IOU_THRESHOLD {
        keep[x] := false;
      }
    }
  }

  /**
   * The inner loop of `non_maximum_suppression`: once `order[i]` is kept,
   * clear the flag of every later candidate it overlaps by more than
   * IOU_THRESHOLD.  Each later flag then says whether that candidate survives
   * the kept list extended by `order[i]`.
   */
  method SuppressLater(boxes: seq<Rect>, order: seq<int>, i: nat, ghost prev: seq<int>, keep: array<bool>)
    requires i < |order| && InRange(order, |boxes|) && Distinct(order) && InRange(prev, |boxes|)
    requires keep.Length == |boxes|
    requires forall q :: i < q < |order| ==> keep[order[q]] == !Suppressed(boxes, prev, order[q])
    modifies keep
    ensures InRange(prev + [order[i]], |boxes|)
    ensures forall q :: i < q < |order| ==> keep[order[q]] == !Suppressed(boxes, prev + [order[i]], order[q])
    ensures forall q :: 0 <= q <= i ==> keep[order[q]] == old(keep[order[q]])
  {
    var kept := prev + [order[i]];
    var n := |order|;
    var j := i + 1;
    while j < n
      invariant i + 1 <= j <= n
      invariant forall q :: i < q < j ==> keep[order[q]] == !Suppressed(boxes, kept, order[q])
      invariant forall q :: j <= q < n ==> keep[order[q]] == !Suppressed(boxes, prev, order[q])
      invariant forall q :: 0 <= q <= i ==> keep[order[q]] == old(keep[order[q]])
    {
      SuppressedSnoc(boxes, prev, order[i], order[j]);
      assert forall q :: 0 <= q < n && q != j ==> order[q] != order[j];
      SuppressOne(boxes, order[i], order[j], keep);
      j := j + 1;
    }
  }

  /**
   * The outer loop of `non_maximum_suppression` over the score order: keep
   * each candidate whose flag is still set and clear the flags it
   * suppresses.  The result is the greedy selection along `order`.
   */
  method KeepSurvivors(boxes: seq<Rect>, order: seq<int>) returns (kept: seq<int>)
    requires |order| == |boxes| && InRange(order, |boxes|) && Distinct(order)
    ensures kept == Greedy(boxes, order, |order|)
  {
    var n := |order|;
    var keep := new bool[n](_ => true);
    kept := [];
    var i := 0;
    while i < n
      invariant 0 <= i <= n
      invariant kept == Greedy(boxes, order, i)
      invariant forall q :: i <= q < n ==> keep[order[q]] == !Suppressed(boxes, kept, order[q])
    {
      kept := Visit(boxes, order, i, kept, keep);
      i := i + 1;
    }
  }

  /**
   * One step of the outer loop: candidate `order[i]` is kept, and suppresses
   * the later ones it overlaps, exactly when its flag is still set.
   */
  method Visit(boxes: seq<Rect>, order: seq<int>, i: nat, kept: seq<int>, keep: array<bool>) returns (next: seq<int>)
    requires i < |order| == |boxes| && InRange(order, |boxes|) && Distinct(order)
    requires keep.Length == |boxes| && kept == Greedy(boxes, order, i)
    requires forall q :: i <= q < |order| ==> keep[order[q]] == !Suppressed(boxes, kept, order[q])
    modifies keep
    ensures next == Greedy(boxes, order, i + 1)
    ensures forall q :: i < q < |order| ==> keep[order[q]] == !Suppressed(boxes, next, order[q])
  {
    next := kept;
    if keep[order[i]] {
      SuppressLater(boxes, order, i, kept, keep);
      next := kept + [order[i]];
    }
  }

  /**
   * `non_maximum_suppression`: sort the candidate indices by descending
   * score, then walk them, keeping each one not yet suppressed and clearing
   * the `keep` flag of every later one it overlaps by more than IOU_THRESHOLD.
   */
  method NonMaximumSuppression(boxes: seq<Rect>, scores: seq<real>) returns (kept: seq<int>)
    requires |boxes| == |scores|
    ensures IsNmsResult(boxes, scores, kept)
    ensures |kept| <= |boxes| && InRange(kept, |boxes|) && Distinct(kept)
    ensures NonIncreasing(scores, kept) && HighestFirst(scores, kept)
    ensures Separated(boxes, kept) && Covers(boxes, scores, kept)
  {
    var order := SortIndicesByScore(scores);
    kept := KeepSurvivors(boxes, order);
    NmsResultProperties(boxes, scores, kept);
  }

  // ---------------------------------------------------------------------
  // postprocess: decoding the network output tensor.
  // ---------------------------------------------------------------------

  /**
   * Element (attribute i, anchor j) of the output tensor of shape
   * [1, rows, cols], stored row-major.
   */
  function Attr(data: seq<real>, rows: int, cols: int, i: int, j: int): real
    requires 0 <= i < rows && 0 <= j < cols && |data| >= rows * cols
  {
    RowMajorBound(i, j, rows, cols);
    data[i * cols + j]
  }

  /** The attributes of anchor j (box centre, size, then one score per class). */
  function AnchorRow(data: seq<real>, attrs: int, anchors: int, j: int): (row: seq<real>)
    requires attrs >= 0 && 0 <= j < anchors && |data| >= attrs * anchors
    ensures |row| == attrs
  {
    seq(attrs, i requires 0 <= i < attrs => Attr(data, attrs, anchors, i, j))
  }

  /**
   * Index of the first largest element of s[lo..hi], which is what
   * `std::max_element` points to.
   */
  function FirstArgMax(s: seq<real>, lo: int, hi: int): (m: int)
    requires 0 <= lo < hi <= |s|
    ensures lo <= m < hi
    ensures forall k :: lo <= k < hi ==> s[k] <= s[m]
    ensures forall k :: lo <= k < m ==> s[k] < s[m]
    decreases hi - lo
  {
    if hi == lo + 1 then lo
    else
      var m := FirstArgMax(s, lo + 1, hi);
      if s[lo] >= s[m] then lo else m
  }

  /** The first largest element is the only index that is largest and beaten by everything before it. */
  lemma FirstArgMaxUnique(s: seq<real>, lo: int, hi: int, m: int)
    requires 0 <= lo < hi <= |s| && lo <= m < hi
    requires forall k :: lo <= k < hi ==> s[k] <= s[m]
    requires forall k :: lo <= k < m ==> s[k] < s[m]
    ensures m == FirstArgMax(s, lo, hi)
  {
  }

  /** Best class score of an anchor row. */
  function BestScore(row: seq<real>): (best: real)
    requires |row| > BBOX_COORDS_OFFSET
    ensures forall k :: BBOX_COORDS_OFFSET <= k < |row| ==> row[k] <= best
    ensures exists k :: BBOX_COORDS_OFFSET <= k < |row| && row[k] == best
  {
    row[FirstArgMax(row, BBOX_COORDS_OFFSET, |row|)]
  }

  /** Label of the first best class of an anchor row. */
  function BestClass(row: seq<real>): (cls: int)
    requires |row| > BBOX_COORDS_OFFSET
    ensures 0 <= cls < |row| - BBOX_COORDS_OFFSET
    ensures row[cls + BBOX_COORDS_OFFSET] == BestScore(row)
  {
    FirstArgMax(row, BBOX_COORDS_OFFSET, |row|) - BBOX_COORDS_OFFSET
  }

  /** A box lies inside a frame of the given size, both corners included. */
  predicate InFrame(r: Rect, frameWidth: int, frameHeight: int) {
    && 0 <= r.x <= frameWidth - 1 && 0 <= r.x + r.width <= frameWidth - 1
    && 0 <= r.y <= frameHeight - 1 && 0 <= r.y + r.height <= frameHeight - 1
  }

  /** The three parallel lists of an `Output` have the same length. */
  predicate WellFormed(d: Output) {
    |d.boxes| == |d.confs| == |d.classIds|
  }

  /** The frame box of anchor j. */
  function AnchorBox(data: seq<real>, attrs: int, anchors: int, frameWidth: int, frameHeight: int, j: int): (r: Rect)
    requires attrs > BBOX_COORDS_OFFSET && 0 <= j < anchors && |data| >= attrs * anchors
    requires frameWidth > 0 && frameHeight > 0
    ensures InFrame(r, frameWidth, frameHeight)
  {
    GetRect(frameWidth, frameHeight, AnchorRow(data, attrs, anchors, j)[..BBOX_COORDS_OFFSET])
  }

  /** The best class score of anchor j. */
  function AnchorScore(data: seq<real>, attrs: int, anchors: int, j: int): real
    requires attrs > BBOX_COORDS_OFFSET && 0 <= j < anchors && |data| >= attrs * anchors
  {
    BestScore(AnchorRow(data, attrs, anchors, j))
  }

  /** The label of the first best class of anchor j. */
  function AnchorClass(data: seq<real>, attrs: int, anchors: int, j: int): (cls: int)
    requires attrs > BBOX_COORDS_OFFSET && 0 <= j < anchors && |data| >= attrs * anchors
    ensures 0 <= cls < attrs - BBOX_COORDS_OFFSET
  {
    BestClass(AnchorRow(data, attrs, anchors, j))
  }

  /** The frame boxes, best scores and best labels of all anchors, in anchor order. */
  function AnchorBoxes(data: seq<real>, attrs: int, anchors: int, frameWidth: int, frameHeight: int): (bs: seq<Rect>)
    requires attrs > BBOX_COORDS_OFFSET && anchors >= 0 && |data| >= attrs * anchors
    requires frameWidth > 0 && frameHeight > 0
    ensures |bs| == anchors
  {
    seq(anchors, j requires 0 <= j < anchors => AnchorBox(data, attrs, anchors, frameWidth, frameHeight, j))
  }

  function AnchorScores(data: seq<real>, attrs: int, anchors: int): (ss: seq<real>)
    requires attrs > BBOX_COORDS_OFFSET && anchors >= 0 && |data| >= attrs * anchors
    ensures |ss| == anchors
  {
    seq(anchors, j requires 0 <= j < anchors => AnchorScore(data, attrs, anchors, j))
  }

  function AnchorClasses(data: seq<real>, attrs: int, anchors: int): (cs: seq<int>)
    requires attrs > BBOX_COORDS_OFFSET && anchors >= 0 && |data| >= attrs * anchors
    ensures |cs| == anchors
  {
    seq(anchors, j requires 0 <= j < anchors => AnchorClass(data, attrs, anchors, j))
  }

  /** The entries of `xs` among the first n whose score exceeds the threshold, in order. */
  function Keep<T>(xs: seq<T>, scores: seq<real>, threshold: real, n: int): (r: seq<T>)
    requires |xs| == |scores| && 0 <= n <= |scores|
    ensures |r| == |Passing(scores, threshold, n)| <= n
  {
    if n == 0 then []
    else
      var r := Keep(xs, scores, threshold, n - 1);
      if scores[n - 1] > threshold then r + [xs[n - 1]] else r
  }

  /** The indices among the first n whose score exceeds the threshold, in increasing order. */
  function Passing(scores: seq<real>, threshold: real, n: int): (js: seq<int>)
    requires 0 <= n <= |scores|
    ensures |js| <= n
    ensures forall k :: 0 <= k < |js| ==> 0 <= js[k] < n
    ensures forall a, b :: 0 <= a < b < |js| ==> js[a] < js[b]
  {
    if n == 0 then []
    else
      var js := Passing(scores, threshold, n - 1);
      if scores[n - 1] > threshold then js + [n - 1] else js
  }

  /** An index passes exactly when its score exceeds the threshold. */
  lemma {:induction false} PassingExactly(scores: seq<real>, threshold: real, n: int)
    requires 0 <= n <= |scores|
    ensures forall j :: 0 <= j < n ==> (j in Passing(scores, threshold, n) <==> scores[j] > threshold)
  {
    if n > 0 {
      PassingExactly(scores, threshold, n - 1);
    }
  }

  /** Entry k of the kept entries is entry js[k] of `xs`, js being the passing indices. */
  lemma {:induction false} KeepIsPassing<T>(xs: seq<T>, scores: seq<real>, threshold: real, n: int)
    requires |xs| == |scores| && 0 <= n <= |scores|
    ensures forall k :: 0 <= k < |Passing(scores, threshold, n)| ==>
      Keep(xs, scores, threshold, n)[k] == xs[Passing(scores, threshold, n)[k]]
  {
    if n > 0 {
      KeepIsPassing(xs, scores, threshold, n - 1);
      var r, js := Keep(xs, scores, threshold, n - 1), Passing(scores, threshold, n - 1);
      var r', js' := Keep(xs, scores, threshold, n), Passing(scores, threshold, n);
      if scores[n - 1] > threshold {
        assert r' == r + [xs[n - 1]] && js' == js + [n - 1];
        forall k | 0 <= k < |js'|
          ensures r'[k] == xs[js'[k]]
        {
          if k < |js| {
            assert r'[k] == r[k] && js'[k] == js[k];
          } else {
            assert r'[k] == xs[n - 1] && js'[k] == n - 1;
          }
        }
      } else {
        assert r' == r && js' == js;
      }
    }
  }

  /**
   * Filtering of per-anchor lists: the entries among the first n whose score
   * exceeds the threshold, in anchor order.
   */
  function Filter(boxes: seq<Rect>, scores: seq<real>, classes: seq<int>, threshold: real, n: int): (d: Output)
    requires |boxes| == |scores| == |classes| && 0 <= n <= |scores|
    ensures WellFormed(d) && |d.boxes| <= n
    ensures forall k :: 0 <= k < |d.confs| ==> d.confs[k] > threshold
  {
    KeepIsPassing(scores, scores, threshold, n);
    PassingExactly(scores, threshold, n);
    var js := Passing(scores, threshold, n);
    assert forall k :: 0 <= k < |js| ==> js[k] in js && scores[js[k]] > threshold;
    Output(Keep(boxes, scores, threshold, n), Keep(scores, scores, threshold, n), Keep(classes, scores, threshold, n))
  }

  /** Entry k of the filtered lists is entry js[k] of the per-anchor lists, js being the passing indices. */
  lemma FilterIsPassing(boxes: seq<Rect>, scores: seq<real>, classes: seq<int>, threshold: real, n: int)
    requires |boxes| == |scores| == |classes| && 0 <= n <= |scores|
    ensures var d, js := Filter(boxes, scores, classes, threshold, n), Passing(scores, threshold, n);
      && |d.boxes| == |js|
      && forall k :: 0 <= k < |js| ==>
           d.boxes[k] == boxes[js[k]] && d.confs[k] == scores[js[k]] && d.classIds[k] == classes[js[k]]
  {
    KeepIsPassing(boxes, scores, threshold, n);
    KeepIsPassing(scores, scores, threshold, n);
    KeepIsPassing(classes, scores, threshold, n);
  }

  /**
   * The candidates the anchor loop of `postprocess` collects from the first n
   * anchors, before suppression: one per anchor whose best class score
   * exceeds the threshold, with its box mapped back to the frame, that score
   * and the label of that class.
   */
  function Decoded(data: seq<real>, attrs: int, anchors: int, frameWidth: int, frameHeight: int,
                   threshold: real, n: int): (d: Output)
    requires attrs > BBOX_COORDS_OFFSET && 0 <= n <= anchors && |data| >= attrs * anchors
    requires frameWidth > 0 && frameHeight > 0
    ensures WellFormed(d) && |d.boxes| <= n
    ensures forall k :: 0 <= k < |d.confs| ==> d.confs[k] > threshold
  {
    Filter(AnchorBoxes(data, attrs, anchors, frameWidth, frameHeight), AnchorScores(data, attrs, anchors),
           AnchorClasses(data, attrs, anchors), threshold, n)
  }

  /** One more anchor adds its candidate when its best class score exceeds the threshold, and nothing otherwise. */
  lemma DecodedStep(data: seq<real>, attrs: int, anchors: int, frameWidth: int, frameHeight: int,
                    threshold: real, n: int)
    requires attrs > BBOX_COORDS_OFFSET && 0 <= n < anchors && |data| >= attrs * anchors
    requires frameWidth > 0 && frameHeight > 0
    ensures var d := Decoded(data, attrs, anchors, frameWidth, frameHeight, threshold, n);
      Decoded(data, attrs, anchors, frameWidth, frameHeight, threshold, n + 1)
        == if AnchorScore(data, attrs, anchors, n) > threshold
           then Output(d.boxes + [AnchorBox(data, attrs, anchors, frameWidth, frameHeight, n)],
                       d.confs + [AnchorScore(data, attrs, anchors, n)],
                       d.classIds + [AnchorClass(data, attrs, anchors, n)])
           else d
  {
    assert AnchorScores(data, attrs, anchors)[n] == AnchorScore(data, attrs, anchors, n);
    assert AnchorBoxes(data, attrs, anchors, frameWidth, frameHeight)[n]
        == AnchorBox(data, attrs, anchors, frameWidth, frameHeight, n);
    assert AnchorClasses(data, attrs, anchors)[n] == AnchorClass(data, attrs, anchors, n);
  }

  /** The anchors among the first n whose best class score exceeds the threshold, in anchor order. */
  function Detected(data: seq<real>, attrs: int, anchors: int, threshold: real, n: int): (js: seq<int>)
    requires attrs > BBOX_COORDS_OFFSET && 0 <= n <= anchors && |data| >= attrs * anchors
    ensures forall k :: 0 <= k < |js| ==> 0 <= js[k] < n
    ensures forall a, b :: 0 <= a < b < |js| ==> js[a] < js[b]
  {
    Passing(AnchorScores(data, attrs, anchors), threshold, n)
  }

  /** An anchor is detected exactly when its best class score exceeds the threshold. */
  lemma DetectedExactly(data: seq<real>, attrs: int, anchors: int, threshold: real, n: int)
    requires attrs > BBOX_COORDS_OFFSET && 0 <= n <= anchors && |data| >= attrs * anchors
    ensures forall j :: 0 <= j < n ==>
      (j in Detected(data, attrs, anchors, threshold, n) <==> AnchorScore(data, attrs, anchors, j) > threshold)
  {
    PassingExactly(AnchorScores(data, attrs, anchors), threshold, n);
  }

  /**
   * The candidates are exactly the detected anchors, in order, each with
   * its frame box, its best score and its best label.
   */
  lemma DecodedIsDetected(data: seq<real>, attrs: int, anchors: int, frameWidth: int,
                          frameHeight: int, threshold: real, n: int)
    requires attrs > BBOX_COORDS_OFFSET && 0 <= n <= anchors && |data| >= attrs * anchors
    requires frameWidth > 0 && frameHeight > 0
    ensures var d, js := Decoded(data, attrs, anchors, frameWidth, frameHeight, threshold, n),
                         Detected(data, attrs, anchors, threshold, n);
      && |d.boxes| == |js|
      && forall k :: 0 <= k < |js| ==>
           && d.boxes[k] == AnchorBox(data, attrs, anchors, frameWidth, frameHeight, js[k])
           && d.confs[k] == AnchorScore(data, attrs, anchors, js[k])
           && d.classIds[k] == AnchorClass(data, attrs, anchors, js[k])
  {
    FilterIsPassing(AnchorBoxes(data, attrs, anchors, frameWidth, frameHeight), AnchorScores(data, attrs, anchors),
                    AnchorClasses(data, attrs, anchors), threshold, n);
  }

  /** Every candidate has a label of the model and a box inside the frame. */
  lemma DecodedInFrame(data: seq<real>, attrs: int, anchors: int, frameWidth: int,
                       frameHeight: int, threshold: real, n: int)
    requires attrs > BBOX_COORDS_OFFSET && 0 <= n <= anchors && |data| >= attrs * anchors
    requires frameWidth > 0 && frameHeight > 0
    ensures var d := Decoded(data, attrs, anchors, frameWidth, frameHeight, threshold, n);
      && (forall k :: 0 <= k < |d.classIds| ==> 0 <= d.classIds[k] < attrs - BBOX_COORDS_OFFSET)
      && (forall k :: 0 <= k < |d.boxes| ==> InFrame(d.boxes[k], frameWidth, frameHeight))
  {
    DecodedIsDetected(data, attrs, anchors, frameWidth, frameHeight, threshold, n);
  }

  /** The candidates the indices `kept` pick out, in the order of `kept`. */
  function Select(d: Output, kept: seq<int>): (r: Output)
    requires WellFormed(d) && InRange(kept, |d.boxes|)
    ensures WellFormed(r) && |r.boxes| == |kept|
  {
    Output(seq(|kept|, k requires 0 <= k < |kept| => d.boxes[kept[k]]),
           seq(|kept|, k requires 0 <= k < |kept| => d.confs[kept[k]]),
           seq(|kept|, k requires 0 <= k < |kept| => d.classIds[kept[k]]))
  }

  /** Selecting in a score-ordered, separated index list gives score-ordered, separated candidates. */
  lemma SelectOrdered(d: Output, kept: seq<int>)
    requires WellFormed(d) && InRange(kept, |d.boxes|)
    requires NonIncreasing(d.confs, kept) && Separated(d.boxes, kept)
    ensures var r := Select(d, kept);
      && (forall a, b :: 0 <= a < b < |r.confs| ==> r.confs[a] >= r.confs[b])
      && (forall a, b :: 0 <= a < b < |r.boxes| ==> Iou(r.boxes[a], r.boxes[b]) <= IOU_THRESHOLD)
  {
    var r := Select(d, kept);
    forall a, b | 0 <= a < b < |r.boxes|
      ensures r.confs[a] >= r.confs[b] && Iou(r.boxes[a], r.boxes[b]) <= IOU_THRESHOLD
    {
      assert r.boxes[a] == d.boxes[kept[a]] && r.boxes[b] == d.boxes[kept[b]];
      assert r.confs[a] == d.confs[kept[a]] && r.confs[b] == d.confs[kept[b]];
    }
  }

  /** All candidates of the whole tensor. */
  function Candidates(data: seq<real>, shape: seq<int>, frameWidth: int, frameHeight: int,
                      threshold: real): Output
    requires |shape| >= 3 && shape[1] > BBOX_COORDS_OFFSET && shape[2] >= 0
    requires |data| >= shape[1] * shape[2] && frameWidth > 0 && frameHeight > 0
  {
    Decoded(data, shape[1], shape[2], frameWidth, frameHeight, threshold, shape[2])
  }

  /** Copy the flat tensor into a rows x cols matrix (the first loop nest of `postprocess`). */
  method Reshape(data: seq<real>, rows: int, cols: int) returns (m: array2<real>)
    requires rows >= 0 && cols >= 0 && |data| >= rows * cols
    ensures fresh(m) && m.Length0 == rows && m.Length1 == cols
    ensures forall i, j :: 0 <= i < rows && 0 <= j < cols ==> m[i, j] == Attr(data, rows, cols, i, j)
  {
    m := new real[rows, cols];
    var i := 0;
    while i < rows
      invariant 0 <= i <= rows
      invariant forall p, q :: 0 <= p < i && 0 <= q < cols ==> m[p, q] == Attr(data, rows, cols, p, q)
    {
      var j := 0;
      while j < cols
        invariant 0 <= j <= cols
        invariant forall p, q :: 0 <= p < i && 0 <= q < cols ==> m[p, q] == Attr(data, rows, cols, p, q)
        invariant forall q :: 0 <= q < j ==> m[i, q] == Attr(data, rows, cols, i, q)
      {
        RowMajorBound(i, j, rows, cols);
        m[i, j] := data[i * cols + j];
        j := j + 1;
      }
      i := i + 1;
    }
  }

  /** Transpose a matrix (the second loop nest of `postprocess`). */
  method Transpose(m: array2<real>) returns (t: array2<real>)
    ensures fresh(t) && t.Length0 == m.Length1 && t.Length1 == m.Length0
    ensures forall i, j :: 0 <= i < m.Length0 && 0 <= j < m.Length1 ==> t[j, i] == m[i, j]
  {
    t := new real[m.Length1, m.Length0];
    var i := 0;
    while i < m.Length0
      invariant 0 <= i <= m.Length0
      invariant forall p, q :: 0 <= p < i && 0 <= q < m.Length1 ==> t[q, p] == m[p, q]
    {
      var j := 0;
      while j < m.Length1
        invariant 0 <= j <= m.Length1
        invariant forall p, q :: 0 <= p < i && 0 <= q < m.Length1 ==> t[q, p] == m[p, q]
        invariant forall q :: 0 <= q < j ==> t[q, i] == m[i, q]
      {
        t[j, i] := m[i, j];
        j := j + 1;
      }
      i := i + 1;
    }
  }

  /** Row r of a matrix. */
  function RowOf(t: array2<real>, r: int): (row: seq<real>)
    requires 0 <= r < t.Length0
    reads t
    ensures |row| == t.Length1
  {
    seq(t.Length1, k requires 0 <= k < t.Length1 reads t => t[r, k])
  }

  /** `std::max_element` over columns lo..hi of row r: the first largest element. */
  method MaxElement(t: array2<real>, r: int, lo: int, hi: int) returns (m: int)
    requires 0 <= r < t.Length0 && 0 <= lo < hi <= t.Length1
    ensures m == FirstArgMax(RowOf(t, r), lo, hi)
  {
    m := lo;
    var k := lo + 1;
    while k < hi
      invariant lo <= m < k <= hi
      invariant forall q :: lo <= q < k ==> t[r, q] <= t[r, m]
      invariant forall q :: lo <= q < m ==> t[r, q] < t[r, m]
    {
      if t[r, m] < t[r, k] {
        m := k;
      }
      k := k + 1;
    }
    FirstArgMaxUnique(RowOf(t, r), lo, hi, m);
  }

  /**
   * The anchor loop of `postprocess` over the transposed tensor: for each
   * anchor, find its first best class and keep the anchor when that score
   * exceeds the threshold.
   */
  method CollectCandidates(t: array2<real>, ghost data: seq<real>, frameWidth: int, frameHeight: int,
                           threshold: real) returns (boxes: seq<Rect>, confs: seq<real>, classIds: seq<int>)
    requires t.Length1 > BBOX_COORDS_OFFSET && |data| >= t.Length1 * t.Length0
    requires frameWidth > 0 && frameHeight > 0
    requires forall j, i :: 0 <= j < t.Length0 && 0 <= i < t.Length1 ==>
      t[j, i] == Attr(data, t.Length1, t.Length0, i, j)
    ensures Output(boxes, confs, classIds) == Decoded(data, t.Length1, t.Length0, frameWidth, frameHeight, threshold, t.Length0)
  {
    var attrs, anchors := t.Length1, t.Length0;
    boxes, confs, classIds := [], [], [];
    var i := 0;
    while i < anchors
      invariant 0 <= i <= anchors
      invariant Output(boxes, confs, classIds) == Decoded(data, attrs, anchors, frameWidth, frameHeight, threshold, i)
    {
      boxes, confs, classIds := CollectAnchor(t, data, frameWidth, frameHeight, threshold, i, boxes, confs, classIds);
      i := i + 1;
    }
  }

  /** One step of the anchor loop: append the candidate of anchor i when its best score exceeds the threshold. */
  method CollectAnchor(t: array2<real>, ghost data: seq<real>, frameWidth: int, frameHeight: int, threshold: real,
                       i: int, boxes: seq<Rect>, confs: seq<real>, classIds: seq<int>)
    returns (boxes': seq<Rect>, confs': seq<real>, classIds': seq<int>)
    requires t.Length1 > BBOX_COORDS_OFFSET && |data| >= t.Length1 * t.Length0 && 0 <= i < t.Length0
    requires frameWidth > 0 && frameHeight > 0
    requires forall j, a :: 0 <= j < t.Length0 && 0 <= a < t.Length1 ==>
      t[j, a] == Attr(data, t.Length1, t.Length0, a, j)
    requires Output(boxes, confs, classIds) == Decoded(data, t.Length1, t.Length0, frameWidth, frameHeight, threshold, i)
    ensures Output(boxes', confs', classIds')
      == Decoded(data, t.Length1, t.Length0, frameWidth, frameHeight, threshold, i + 1)
  {
    var cls, score := BestOfAnchor(t, data, i);
    DecodedStep(data, t.Length1, t.Length0, frameWidth, frameHeight, threshold, i);
    boxes', confs', classIds' := boxes, confs, classIds;
    if score > threshold {
      var box := BoxOfAnchor(t, data, frameWidth, frameHeight, i);
      boxes', confs', classIds' := boxes + [box], confs + [score], classIds + [cls];
    }
  }

  /** Row `anchor` of the transposed tensor holds the attributes of that anchor. */
  lemma AnchorRowIsRow(t: array2<real>, data: seq<real>, anchor: int)
    requires t.Length1 > BBOX_COORDS_OFFSET && |data| >= t.Length1 * t.Length0 && 0 <= anchor < t.Length0
    requires forall j, i :: 0 <= j < t.Length0 && 0 <= i < t.Length1 ==>
      t[j, i] == Attr(data, t.Length1, t.Length0, i, j)
    ensures RowOf(t, anchor) == AnchorRow(data, t.Length1, t.Length0, anchor)
  {
  }

  /** The frame box of one anchor, from the first four attributes of its row of the transposed tensor. */
  method BoxOfAnchor(t: array2<real>, ghost data: seq<real>, frameWidth: int, frameHeight: int, anchor: int)
    returns (box: Rect)
    requires t.Length1 > BBOX_COORDS_OFFSET && |data| >= t.Length1 * t.Length0 && 0 <= anchor < t.Length0
    requires frameWidth > 0 && frameHeight > 0
    requires forall j, i :: 0 <= j < t.Length0 && 0 <= i < t.Length1 ==>
      t[j, i] == Attr(data, t.Length1, t.Length0, i, j)
    ensures box == AnchorBox(data, t.Length1, t.Length0, frameWidth, frameHeight, anchor)
  {
    var bbox := [t[anchor, 0], t[anchor, 1], t[anchor, 2], t[anchor, 3]];
    AnchorRowIsRow(t, data, anchor);
    assert bbox == AnchorRow(data, t.Length1, t.Length0, anchor)[..BBOX_COORDS_OFFSET];
    box := GetRect(frameWidth, frameHeight, bbox);
  }

  /** The best class of one anchor and its score, read from the transposed tensor. */
  method BestOfAnchor(t: array2<real>, ghost data: seq<real>, anchor: int) returns (cls: int, score: real)
    requires t.Length1 > BBOX_COORDS_OFFSET && |data| >= t.Length1 * t.Length0 && 0 <= anchor < t.Length0
    requires forall j, i :: 0 <= j < t.Length0 && 0 <= i < t.Length1 ==>
      t[j, i] == Attr(data, t.Length1, t.Length0, i, j)
    ensures cls == AnchorClass(data, t.Length1, t.Length0, anchor)
    ensures score == AnchorScore(data, t.Length1, t.Length0, anchor)
  {
    var m := MaxElement(t, anchor, BBOX_COORDS_OFFSET, t.Length1);
    AnchorRowIsRow(t, data, anchor);
    cls, score := m - BBOX_COORDS_OFFSET, t[anchor, m];
  }

  /** The final loop of `postprocess`: gather the kept candidates in the order suppression returned them. */
  method Gather(d: Output, kept: seq<int>) returns (result: Output)
    requires WellFormed(d) && InRange(kept, |d.boxes|)
    ensures result == Select(d, kept)
  {
    result := Output([], [], []);
    var k := 0;
    while k < |kept|
      invariant 0 <= k <= |kept|
      invariant result == Select(d, kept[..k])
    {
      result := Output(result.boxes + [d.boxes[kept[k]]], result.confs + [d.confs[kept[k]]],
                       result.classIds + [d.classIds[kept[k]]]);
      k := k + 1;
    }
    assert kept[..k] == kept;
  }

  /**
   * `postprocess`: decode every anchor of the [1, attributes, anchors]
   * output tensor, keep those whose best class score exceeds the confidence
   * threshold, and return what non-maximum suppression keeps of them.
   */
  method Postprocess(data: seq<real>, shape: seq<int>, frameWidth: int, frameHeight: int,
                     threshold: real) returns (result: Output)
    requires |shape| >= 3 && shape[1] > BBOX_COORDS_OFFSET && shape[2] >= 0
    requires |data| >= shape[1] * shape[2] && frameWidth > 0 && frameHeight > 0
    ensures WellFormed(result)
    ensures var d := Candidates(data, shape, frameWidth, frameHeight, threshold);
      exists kept :: IsNmsResult(d.boxes, d.confs, kept) && InRange(kept, |d.boxes|) && result == Select(d, kept)
    ensures forall k :: 0 <= k < |result.confs| ==> result.confs[k] > threshold
    ensures forall k :: 0 <= k < |result.classIds| ==> 0 <= result.classIds[k] < shape[1] - BBOX_COORDS_OFFSET
    ensures forall k :: 0 <= k < |result.boxes| ==> InFrame(result.boxes[k], frameWidth, frameHeight)
    ensures forall a, b :: 0 <= a < b < |result.confs| ==> result.confs[a] >= result.confs[b]
    ensures forall a, b :: 0 <= a < b < |result.boxes| ==> Iou(result.boxes[a], result.boxes[b]) <= IOU_THRESHOLD
  {
    var matrix := Reshape(data, shape[1], shape[2]);
    var transposed := Transpose(matrix);
    var boxes, confs, classIds := CollectCandidates(transposed, data, frameWidth, frameHeight, threshold);
    var d := Output(boxes, confs, classIds);
    var kept := NonMaximumSuppression(boxes, confs);
    result := Gather(d, kept);
    assert d == Candidates(data, shape, frameWidth, frameHeight, threshold);
    assert IsNmsResult(d.boxes, d.confs, kept) && InRange(kept, |d.boxes|) && result == Select(d, kept);
    SelectOrdered(d, kept);
    DecodedInFrame(data, shape[1], shape[2], frameWidth, frameHeight, threshold, shape[2]);
    forall k | 0 <= k < |kept|
      ensures result.confs[k] > threshold && 0 <= result.classIds[k] < shape[1] - BBOX_COORDS_OFFSET
      ensures InFrame(result.boxes[k], frameWidth, frameHeight)
    {
      assert result.confs[k] == confs[kept[k]] && result.classIds[k] == classIds[kept[k]];
      assert result.boxes[k] == boxes[kept[k]];
    }
  }
}
