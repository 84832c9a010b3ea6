# YOLOv8 pre- and post-processing, modelled in Dafny

This project models the detection pipeline around the ONNX inference call of
the YoloV8-ONNX C++ demo, and proves properties of that model.

- **Pre-processing** (`pre_processing.dfy`, module `PreProcessing`).
  - The aspect-preserving nearest-neighbour resize pastes the frame, centred, into a zero-filled network-sized buffer: the letterbox.
  - The interleaved 8-bit image becomes a planar blob. Each element is the byte times `scale`, minus the mean of its plane, with an optional red/blue swap.
  - `preprocess` composes the two.
- **Post-processing** (`post_processing.dfy`, module `PostProcessing`).
  - Integer-rectangle IoU.
  - Greedy, class-agnostic non-maximum suppression (NMS) over candidate indices.
  - `get_rect`, which maps a network-space box back to the frame by removing the letterbox's pad and scale, and clamps it to the frame.
  - The decode scan of `postprocess`: copy the `[1, A, N]` tensor, transpose it, take the first argmax of the class scores, filter with a strict threshold, run NMS, and gather the survivors.
- **Demo helpers** (`demo.dfy`, module `Demo`).
  - `draw_bbox` paints a two-pixel border in place.
  - `print_shape` writes a tensor shape such as `1x84x8400`.
- **Flat indexing** (`flat_index.dfy`, module `FlatIndex`).
  - The row-major, channel-interleaved index `(y * width + x) * channels + c`.
  - Its decoding, and the bounds and injectivity facts that every buffer loop relies on.

## How the source maps onto the model

**Loops stay loops.** Functions that loop in place are methods over arrays, with loop invariants:
- the resize writes into an `array<byte>`;
- the blob loops write into an `array<real>`;
- `draw_bbox` writes into the frame array;
- NMS clears its `keep` flags in an `array<bool>`.

Each method is proved against a specification function:
- `Resized` and `Letterboxed` for the resize;
- `Blob` for the blob;
- `Painted` and `OnBorder` for the drawing;
- `Greedy` for the suppression;
- `Decoded` for the anchor scan;
- `Select` for the gather;
- `Shape` for `print_shape`.

The lemmas then prove what the source promises about those functions.

**Floating point is idealised as `real`.** This covers scores, ratios, the IoU division and the blob arithmetic.
- `std::round` only ever sees clamped, non-negative values, so it is `Floor(v + 0.5)`.
- `static_cast<int>` of the non-negative resize quotients is integer division of the exact products. For example, `new_height = (tw * ih) / iw` and `src_x = (x * iw) / new_width`.
- "The image is wider than the target" (`iw / ih > tw / th`) is decided exactly, as `iw * th > tw * ih`.

**Integers are unbounded.** Where the source's 32-bit `int` matters, lemmas bound it:
- `IouNoOverflow` shows that the IoU products fit in 32 bits for boxes within 2^15.
- `GetRectBounded` shows that `get_rect` produces such boxes on frames of at most 2^15 pixels a side.

**Sorting.** `std::sort` (with `std::iota`) is modelled by a selection sort whose contract is the one the source relies on: a permutation of `0 .. n-1` sorted by non-increasing score.
- `std::sort` is not stable, so the NMS contract (`IsNmsResult`) says only that the result is the greedy selection along *some* score order.
- Every property proved for NMS holds for every such order.

### Behaviour worth noting

- **NMS ties.** `std::sort` is not stable, so the order of equal scores is left open.
- **Red/blue swap.** The swap reads channel `2 - c`, so swapping requires exactly three channels; with fewer, the code reads outside the pixel.
- **Default arguments.** `create_blob` defaults to `scale = 1/255`, `mean = {0, 0, 0}` and no swap; `preprocess` also defaults to a 640 x 640 target. The model gives its methods the same default values. The default mean has three entries, so a call relying on it works for at most three channels (`DefaultBlobParams`).
- **Letterbox geometry.** `get_rect` rebuilds the letterbox from exact ratios, while the resize truncates the scaled side to whole pixels. `FrameLetterboxMatchesFit` shows that the two agree on the binding side and on the unpadded axis, and differ by less than one pixel in the scaled size and by at most half a pixel in the pad.
- **Invalid arguments.** The code validates no arguments, so each function's needs are preconditions:
  - positive sizes;
  - more than four attribute rows;
  - a mean per channel;
  - at least three channels for drawing;
  - a non-empty shape for `print_shape`.

## Model

| member | source | states |
|---|---|---|
| PostProcessing.Rect.Area | src/post_processing.hpp:27-30 | a box with non-negative sides has a non-negative area, and one with positive sides an area at least each side |
| PostProcessing.OverlapWithinBoxes | src/post_processing.hpp:42-54 | a positive overlap is no wider or taller than either box, so both boxes have positive sides and the intersection is at most each area |
| PostProcessing.Iou | src/post_processing.hpp:40-57 | IoU is 0 when the overlap width or height is at most 0, and otherwise lies in (0, 1]: the union is at least the intersection, which is positive, so the division is defined |
| PostProcessing.IouSymmetric | src/post_processing.hpp:42-56 | IoU(a, b) == IoU(b, a) |
| PostProcessing.IouSelf | src/post_processing.hpp:40-57 | a box with positive sides has IoU 1 with itself |
| PostProcessing.IouNoOverflow | src/post_processing.hpp:42-54 | for boxes within 2^15 the overlap sides, both areas, their sum and the intersection product fit in a 32-bit int |
| PostProcessing.Round | src/post_processing.hpp:124-127 | std::round of a non-negative value is the non-negative integer within half a unit of it, halves rounding up |
| PostProcessing.ClampRound | src/post_processing.hpp:124-127 | clamping to [0, hi] and then rounding gives an integer in [0, hi] |
| PostProcessing.ClampRoundMonotone | src/post_processing.hpp:124-127 | clamping and rounding preserve order |
| PostProcessing.Unletterbox | src/post_processing.hpp:97-122 | the un-letterboxed edges of a box with non-negative size are ordered (left <= right, top <= bottom) |
| PostProcessing.RemovePad | src/post_processing.hpp:101-122 | removing the pad and unscaling a box of non-negative size gives ordered edges, whatever the letterbox |
| PostProcessing.EdgesOrdered | src/post_processing.hpp:101-122 | a box of non-negative size has its frame-space low edge at or below its high edge |
| PostProcessing.GetRect | src/post_processing.hpp:95-130 | both corners lie in [0, frame_width-1] x [0, frame_height-1]; a box of non-negative network size has non-negative width and height |
| PostProcessing.GetRectBounded | src/post_processing.hpp:95-130 | on frames of at most 2^15 pixels a side, the decoded box is within the bounds that keep IoU free of int overflow |
| PostProcessing.EdgeRoundTrip | src/post_processing.hpp:101-122 | removing the pad and unscaling a centre/size pair recovers the edges it was made from |
| PostProcessing.UnletterboxInverts | src/post_processing.hpp:97-122 | removing the pad of the non-binding axis and unscaling exactly inverts the real-valued forward letterbox built from the same ratios: Unletterbox(ForwardLetterbox(e)) == e |
| PostProcessing.RemovePadInverts | src/post_processing.hpp:101-122 | for any positive scale and any pads, removing a letterbox undoes adding it |
| PostProcessing.GetRectInvertsLetterbox | src/post_processing.hpp:95-130 | a box of whole pixels within the frame, put into network space by the real-valued letterbox, is recovered exactly by get_rect |
| PostProcessing.FrameLetterboxMatchesFit | src/post_processing.hpp:97-122 | for a 640 x 640 input, get_rect's letterbox binds the same side as the resize (r_h > r_w exactly when the frame is wider than high), pads only the other axis, scales the frame to the resize's truncated size within one pixel, and places the pad within half a pixel of the resize's |
| PostProcessing.Iota | src/post_processing.hpp:62-63 | the index list holds 0 .. n-1 in order |
| PostProcessing.IotaPermutation | src/post_processing.hpp:62-63 | a rearrangement of 0 .. n-1 lists each index exactly once |
| PostProcessing.Swap | src/post_processing.hpp:65-67 | exchanging two entries changes exactly those two and preserves the multiset |
| PostProcessing.MaxScoreFrom | src/post_processing.hpp:65-67 | returns a position in a[i..] whose score is at least every score there |
| PostProcessing.SelectionStep | src/post_processing.hpp:65-67 | swapping a highest-scoring suffix entry to position i extends the sorted, dominating prefix by one |
| PostProcessing.SelectNext | src/post_processing.hpp:65-67 | one round of the sort keeps the array a permutation and extends the sorted prefix by one |
| PostProcessing.SortIndicesByScore | src/post_processing.hpp:62-67 | the sorted indices list every candidate exactly once, by non-increasing score; equal scores come in any order |
| PostProcessing.SelectedIsScoreOrder | src/post_processing.hpp:62-67 | a fully sorted rearrangement of 0 .. n-1 is a score order |
| PostProcessing.Suppressed | src/post_processing.hpp:81-87 | nothing is suppressed before any box is kept, and only a candidate with positive sides can be suppressed, since IoU > IOU_THRESHOLD needs a positive overlap |
| PostProcessing.SuppressedSnoc | src/post_processing.hpp:79-89 | a candidate is suppressed by the kept list extended by c exactly when it was suppressed before or c overlaps it by more than IOU_THRESHOLD |
| PostProcessing.Greedy | src/post_processing.hpp:72-90 | the greedy selection along the first i sorted entries keeps at most i valid indices |
| PostProcessing.GreedyMembers | src/post_processing.hpp:72-90 | every kept index comes from the first i entries of the sorted order |
| PostProcessing.GreedyPrefix | src/post_processing.hpp:72-90 | the kept list only grows: an earlier selection is a prefix of a later one |
| PostProcessing.GreedyGrows | src/post_processing.hpp:74-77 | one step of the selection keeps what was kept, in order, and at most appends the next sorted index |
| PostProcessing.GreedySeparated | src/post_processing.hpp:72-90 | no two kept boxes overlap by more than IOU_THRESHOLD |
| PostProcessing.SeparatedSnoc | src/post_processing.hpp:74-89 | pushing a box that no kept box overlaps by more than IOU_THRESHOLD keeps the kept boxes separated |
| PostProcessing.GreedyKept | src/post_processing.hpp:74-77 | a sorted entry that no earlier kept box suppresses is kept |
| PostProcessing.GreedyDropped | src/post_processing.hpp:74-77 | a sorted entry that is not kept was suppressed by the boxes kept before it |
| PostProcessing.GreedyCoversOne | src/post_processing.hpp:72-90 | a dropped entry overlaps, by more than IOU_THRESHOLD, a kept box that comes earlier in sorted order |
| PostProcessing.GreedyCovers | src/post_processing.hpp:72-90 | every dropped entry overlaps, by more than IOU_THRESHOLD, a kept box that comes earlier in sorted order |
| PostProcessing.GreedyDistinct | src/post_processing.hpp:72-90 | the kept indices are distinct |
| PostProcessing.DistinctSnoc | src/post_processing.hpp:74-77 | pushing an index not yet kept keeps the kept indices distinct |
| PostProcessing.GreedyScoresNonIncreasing | src/post_processing.hpp:65-77 | along a score order, the kept scores never increase |
| PostProcessing.EarlierScoresAtLeast | src/post_processing.hpp:65-67 | every index placed before position i of a score order scores at least as high as the entry at i |
| PostProcessing.NonIncreasingSnoc | src/post_processing.hpp:74-77 | pushing an index that scores no higher than any kept one keeps the kept scores non-increasing |
| PostProcessing.GreedyKeepsFirst | src/post_processing.hpp:72-77 | the first sorted entry is always kept, and kept first |
| PostProcessing.GreedyHighestFirst | src/post_processing.hpp:62-77 | for non-empty input the first kept index has a maximal score |
| PostProcessing.GreedyDominates | src/post_processing.hpp:62-90 | every dropped candidate overlaps, by more than IOU_THRESHOLD, a kept one with at least its score |
| PostProcessing.NmsResultProperties | src/post_processing.hpp:59-93 | whatever order the sort gives equal scores, the result is distinct, in-range and no longer than the input; its scores are non-increasing with a maximal one first; the kept boxes are pairwise separated; every dropped candidate is dominated |
| PostProcessing.SuppressOne | src/post_processing.hpp:81-88 | a candidate still kept is dropped exactly when the current box overlaps it by more than IOU_THRESHOLD; no other flag changes |
| PostProcessing.SuppressLater | src/post_processing.hpp:79-89 | the inner loop clears exactly the flags of later candidates that the kept list extended by order[i] suppresses, and leaves earlier flags alone |
| PostProcessing.Visit | src/post_processing.hpp:74-89 | one outer step appends order[i] exactly when its flag is set; the kept list is then the greedy selection of i + 1 entries |
| PostProcessing.KeepSurvivors | src/post_processing.hpp:69-92 | the flag-clearing loops compute the greedy selection along the sorted order |
| PostProcessing.NonMaximumSuppression | src/post_processing.hpp:59-93 | the result is an NMS result for some score order, with all the properties of NmsResultProperties; class ids take no part |
| PostProcessing.Reshape | src/post_processing.hpp:140-148 | the matrix holds matrix[i][j] == data[i * shape[2] + j] |
| PostProcessing.Transpose | src/post_processing.hpp:150-158 | the transposed matrix holds t[j][i] == m[i][j] |
| PostProcessing.FirstArgMax | src/post_processing.hpp:165 | the first position of the maximum: at least every element, and above every element before it |
| PostProcessing.FirstArgMaxUnique | src/post_processing.hpp:165 | only one position is maximal and above everything before it |
| PostProcessing.MaxElement | src/post_processing.hpp:165-166 | the std::max_element scan returns the first position of the maximum of the class scores |
| PostProcessing.BestScore | src/post_processing.hpp:165-166 | *max_score_ptr: the best class score is at least every class score and is one of them |
| PostProcessing.BestClass | src/post_processing.hpp:165-170 | the label is a class index whose score is the best score |
| PostProcessing.AnchorBox | src/post_processing.hpp:169 | an anchor's box lies inside the frame |
| PostProcessing.AnchorClass | src/post_processing.hpp:170 | an anchor's label lies in [0, num_classes) |
| PostProcessing.Keep | src/post_processing.hpp:160-174 | filtering one per-anchor list keeps exactly as many entries as there are passing indices, at most n |
| PostProcessing.KeepIsPassing | src/post_processing.hpp:160-174 | entry k of a filtered list is the entry at the k-th passing index |
| PostProcessing.Filter | src/post_processing.hpp:160-174 | the filtered lists have equal lengths, at most n entries, and only scores above the threshold |
| PostProcessing.Passing | src/post_processing.hpp:160-167 | the passing indices are below n and strictly increasing (anchor order) |
| PostProcessing.PassingExactly | src/post_processing.hpp:167 | an index passes exactly when its score exceeds the threshold (strict >) |
| PostProcessing.FilterIsPassing | src/post_processing.hpp:160-174 | entry k of the filtered lists is the entry of the k-th passing index |
| PostProcessing.Decoded | src/post_processing.hpp:160-174 | the candidate lists have equal lengths, at most one entry per anchor, and every confidence exceeds the threshold |
| PostProcessing.DecodedStep | src/post_processing.hpp:167-173 | one more anchor appends its box, score and label when its best score exceeds the threshold, and nothing otherwise |
| PostProcessing.Detected | src/post_processing.hpp:160-167 | the detected anchors are valid and in increasing anchor order |
| PostProcessing.DetectedExactly | src/post_processing.hpp:165-167 | an anchor yields a candidate exactly when its best class score exceeds the confidence threshold |
| PostProcessing.DecodedIsDetected | src/post_processing.hpp:160-174 | candidate k is the k-th detected anchor's frame box, best score and first best label |
| PostProcessing.DecodedInFrame | src/post_processing.hpp:165-172 | every candidate's label is a class index and its box lies inside the frame |
| PostProcessing.Select | src/post_processing.hpp:177-182 | gathering keeps the three result lists parallel, one entry per kept index |
| PostProcessing.SelectOrdered | src/post_processing.hpp:175-182 | gathering along a score-ordered, separated index list gives score-ordered, separated results |
| PostProcessing.AnchorRowIsRow | src/post_processing.hpp:162 | row j of the transposed tensor is anchor j's attribute row |
| PostProcessing.BoxOfAnchor | src/post_processing.hpp:163-169 | get_rect of the first four attributes of the row is the anchor's frame box |
| PostProcessing.BestOfAnchor | src/post_processing.hpp:164-170 | the scan returns the anchor's first best label and its score |
| PostProcessing.CollectAnchor | src/post_processing.hpp:162-173 | one step of the anchor loop extends the candidates from n anchors to n + 1 |
| PostProcessing.CollectCandidates | src/post_processing.hpp:160-174 | the anchor loop over the transposed tensor collects exactly the decoded candidates |
| PostProcessing.Gather | src/post_processing.hpp:176-182 | the final loop gathers the kept candidates in suppression order |
| PostProcessing.Postprocess | src/post_processing.hpp:132-184 | the result is an NMS result over the decoded candidates; its lists are parallel; confidences exceed the threshold; labels are class indices; boxes lie in the frame; scores are non-increasing; kept boxes overlap by at most IOU_THRESHOLD |
| PreProcessing.Fit | src/pre_processing.hpp:17-36 | the resized size fits the target and the padding keeps it inside |
| FlatIndex.IndexBound | src/pre_processing.hpp:52-53 | every in-range pixel and channel indexes inside a width * height * channels buffer |
| FlatIndex.IndexDecode | src/pre_processing.hpp:52-53 | division and remainder recover the pixel and channel of an index |
| FlatIndex.IndexInjective | src/pre_processing.hpp:52-53 | distinct in-range pixel-channel triples have distinct indices, so no two writes collide |
| PreProcessing.FitAspect | src/pre_processing.hpp:17-36 | the binding side fills its target; the other side is the exact scaled length truncated; the padding centres the image to within one pixel, with any odd pixel at the bottom or right |
| PreProcessing.FitBounds | src/pre_processing.hpp:23-32 | the truncated side lies in [0, its target] and brackets the exact scaled length |
| PreProcessing.SourceCoord | src/pre_processing.hpp:47-48 | the sampled source column or row is clamped into [0, size - 1] |
| PreProcessing.SourceCoordMonotone | src/pre_processing.hpp:47-48 | sampling is monotone in the destination coordinate |
| PreProcessing.SourceCoordIdentity | src/pre_processing.hpp:47-48 | resizing a side to its own length samples each coordinate in place |
| PreProcessing.Sampled | src/pre_processing.hpp:43-53 | channel c of a resized pixel is channel c of some in-range source pixel: nearest neighbour copies and never blends |
| PreProcessing.Resized | src/pre_processing.hpp:43-53 | every element of the target after the resize is either its old value or a byte of the source image |
| PreProcessing.ResizeStep | src/pre_processing.hpp:50-53 | write number t lands, in bounds, on target pixel (x + pad_x, y + pad_y) with the sampled byte, and changes nothing else |
| PreProcessing.ResizeComplete | src/pre_processing.hpp:43-56 | after all new_width * new_height * channels writes, every pasted element is sampled and every other element is unchanged |
| PreProcessing.ResizeInto | src/pre_processing.hpp:7-57 | the resize writes each pasted element with its nearest source element and leaves every padding element at its old value |
| PreProcessing.ResizePixel | src/pre_processing.hpp:45-55 | the channel loop of one pixel performs the next `channels` writes |
| PreProcessing.Letterboxed | src/pre_processing.hpp:59-70 | the returned image has exactly tw * th * channels bytes |
| PreProcessing.ResizeImageAspectRatio | src/pre_processing.hpp:59-70 | the returning overload gives the zero-filled target with the resized image pasted in |
| PreProcessing.LetterboxedPixel | src/pre_processing.hpp:43-53 | in the letterbox, pixel (x + pad_x, y + pad_y) is the sampled source pixel |
| PreProcessing.LetterboxedPadding | src/pre_processing.hpp:67-68 | every byte outside the pasted rectangle is 0 |
| PreProcessing.LetterboxedIdentity | src/pre_processing.hpp:17-56 | letterboxing an image to its own size leaves it unchanged |
| PreProcessing.Blob | src/pre_processing.hpp:100-113 | the blob has channels * width * height elements |
| PreProcessing.BlobStep | src/pre_processing.hpp:87-94 | the write with blob index c * H * W + p reads image index p * C + off(c) in bounds and stores the scaled byte minus mean[c] |
| PreProcessing.BlobElement | src/pre_processing.hpp:91-94 | blob element c * pixels + p is image element p * C + off(c), scaled, minus mean[c]; both indices are in bounds |
| PreProcessing.CreateBlobRow | src/pre_processing.hpp:87-96 | one row of the loops makes its elements final and changes nothing after them |
| PreProcessing.CreateBlobInto | src/pre_processing.hpp:72-98 | the buffer holds the blob in its first C * H * W elements and keeps the rest |
| PreProcessing.CreateBlob | src/pre_processing.hpp:100-113 | the returning overload gives exactly the blob |
| PreProcessing.BlobPixel | src/pre_processing.hpp:83-96 | blob[c * H * W + y * W + x] == image[(y * W + x) * C + off(c)] * scale - mean[c] |
| PreProcessing.BlobSwapped | src/pre_processing.hpp:85-94 | with the swap and three channels, plane 0 reads channel 2, plane 1 channel 1 and plane 2 channel 0 |
| PreProcessing.ChannelOffset | src/pre_processing.hpp:85 | for three channels the offset is a channel, and it equals c exactly when there is no swap or c is the middle channel |
| PreProcessing.ChannelOffsetInvolution | src/pre_processing.hpp:85 | the channel offset is in range, and swapping twice is no swap |
| PreProcessing.BlobReads | src/pre_processing.hpp:83-96 | every image element is read by a blob element in range |
| PreProcessing.BlobInjective | src/pre_processing.hpp:72-98 | with a non-zero scale, equal blobs come from equal images, so the blob loses nothing |
| PreProcessing.BlobDeterminesElement | src/pre_processing.hpp:91-94 | a blob element determines the image byte it reads |
| PreProcessing.Normalized | src/pre_processing.hpp:94 | with a non-negative scale, byte * scale - mean lies in [-mean, 255 * scale - mean] |
| PreProcessing.DefaultNormalizedRange | src/pre_processing.hpp:79-81 | with the default scale 1/255 and mean 0, every blob element lies in [0, 1] |
| PreProcessing.DefaultBlobParams | src/pre_processing.hpp:79-81 | a call relying on the default three-entry mean can make a blob of one to three channels, and with the swap exactly three |
| PreProcessing.NormalizedInjective | src/pre_processing.hpp:94 | scaling by a non-zero factor and subtracting the mean is injective on bytes |
| PreProcessing.Preprocess | src/pre_processing.hpp:115-130 | preprocess returns channels * tw * th elements: the blob of the letterboxed frame |
| PreProcessing.PreprocessedPixel | src/pre_processing.hpp:115-130 | a pixel of the pasted image carries its sampled source byte, scaled, minus the mean of its plane |
| PreProcessing.PreprocessedPadding | src/pre_processing.hpp:115-130 | every padding pixel carries minus the mean of its plane |
| Demo.CppRem | src/main.cpp:33 | C++ `%`: the remainder is below the divisor in magnitude, takes the sign of the dividend, and differs from it by a multiple of the divisor |
| Demo.Colour | src/main.cpp:32-44 | the colour has three channels |
| Demo.ColourOfClass | src/main.cpp:32-44 | a non-negative class id gets 255 in channel id % 3 (red, green, blue) and 0 in the others, and colours repeat every three classes |
| Demo.ColourOfNegativeClass | src/main.cpp:32-44 | a negative class id that is not a multiple of three falls through the switch and is drawn black |
| Demo.ClampCorners | src/main.cpp:26-29 | the corners are clamped into the frame and are otherwise the box's own |
| Demo.OnBorder | src/main.cpp:47-94 | every pixel of the drawn border lies inside the frame |
| Demo.BorderNearEdge | src/main.cpp:47-94 | every border pixel lies in the frame, within two pixels of an edge of the clamped box |
| Demo.PaintPixel | src/main.cpp:56-58 | channels 0-2 of one pixel become the colour; every other byte is unchanged |
| Demo.DrawRow | src/main.cpp:51-71 | a horizontal line paints exactly its in-frame pixels between the clamped columns, and is skipped when its row is outside the frame |
| Demo.DrawColumn | src/main.cpp:73-93 | a vertical line paints exactly its in-frame pixels between the clamped rows, and is skipped when its column is outside the frame |
| Demo.DrawRing | src/main.cpp:50-93 | one pass of the thickness loop paints exactly the in-frame pixels of the four lines at offset t |
| Demo.DrawBbox | src/main.cpp:23-95 | exactly channels 0-2 of the border pixels take the class colour; every other byte of the buffer is unchanged |
| Demo.RingsStep | src/main.cpp:48-94 | the rings drawn up to pass t + 1 are those up to pass t plus ring t |
| Demo.Digits | src/main.cpp:143 | a number is written with at least one digit |
| Demo.IntToString | src/main.cpp:143 | a written integer is non-empty and starts with '-' when negative |
| Demo.DigitsAreDecimal | src/main.cpp:143 | every written digit is a decimal digit |
| Demo.IntToStringChars | src/main.cpp:143 | a written integer is decimal digits with at most a leading minus sign |
| Demo.ParseIntToString | src/main.cpp:143 | reading a written integer back gives the integer |
| Demo.ParseDigits | src/main.cpp:143 | reading the decimal digits of a natural number back gives the number |
| Demo.Parts | src/main.cpp:142-144 | part k is the decimal text of dimension k |
| Demo.ShapeIsLeading | src/main.cpp:142-144 | the joined shape is every dimension but the last followed by 'x', then the last |
| Demo.Shape | src/main.cpp:139-146 | the printed shape has at least one digit per dimension and one separator between neighbours: length at least 2 * v.size() - 1 |
| Demo.JoinLength | src/main.cpp:142-144 | joining non-empty parts gives at least one character per part and one separator between neighbours |
| Demo.PrintShape | src/main.cpp:139-146 | print_shape of a non-empty shape writes the decimal dimensions joined by 'x' |
| Demo.ShapeSeparators | src/main.cpp:139-146 | the printed shape holds exactly v.size() - 1 separators |
| Demo.JoinSeparators | src/main.cpp:142-144 | joining parts free of the separator adds one separator between each two parts |
| Demo.JoinSnoc | src/main.cpp:142-144 | appending a part appends the separator and that part |
| Demo.SplitJoin | src/main.cpp:142-144 | splitting a join at the separator gives back the parts |
| Demo.ShapeRoundTrip | src/main.cpp:139-146 | the printed shape determines the shape: splitting at 'x' and reading each part back gives the dimensions |

## Left out

- main() (src/main.cpp:148-290) is not modelled: it sets up the ONNX Runtime session, inspects shapes, creates tensors, calls `session.Run` and writes to the console. These are foreign library calls and I/O.
- load_image and save_image_with_bboxes (src/main.cpp:98-137) are not modelled: they are file I/O through stb_image. src/load_image.hpp and models/yolo_infer.py are not part of this model.
- IEEE `float`/`double` rounding, infinities and NaN: every floating-point quantity is a real. This covers:
  - the aspect ratios and their comparison;
  - `r_w` and `r_h`, the pads and the divisions of `get_rect`;
  - the IoU division;
  - the blob arithmetic.
- Iou: models the division of `float`s exactly; the 32-bit `int` products before it are covered by IouNoOverflow only for boxes within 2^15.
- GetRect: is proved to invert exactly only the real-valued letterbox `ForwardLetterbox`, not the truncated one the resize builds; FrameLetterboxMatchesFit bounds the gap between the two (under one pixel in size, at most half a pixel in pad) but no round trip through the truncated resize is stated.
- GetRect: the frame-space edges are exact reals, so a value the source would round across a .5 boundary may round differently here.
- Fit: in the source, a resized side of 0 makes `scale_x` or `scale_y` a division by zero. It is harmless there, because the loops then run zero times. The model has no such division, so it needs no precondition for it.
- The template element type `T` of the blob functions is fixed to real. The returning `create_blob` allocates `std::vector<float>` and so only works for `float` anyway.
- SortIndicesByScore: `std::sort`'s own algorithm is replaced by a selection sort with the same contract. The contract is a permutation sorted by non-increasing score, with no promise about equal scores, and nothing else about `std::sort` is used.
- CreateBlobInto: states the final content of the buffer, not that each element is written exactly once. The row-by-row invariants of CreateBlobRow imply it, but no separate statement of it exists.
- Postprocess: `shape` is modelled as a sequence of unbounded integers `shape[1]` (attributes) and `shape[2]` (anchors) rather than `int64_t`; the raw tensor data is a sequence of at least `shape[1] * shape[2]` reals.
- The source's undefined behaviour on bad arguments is excluded by preconditions, not modelled:
  - `max_element` over zero classes, when `shape[1] <= 4`;
  - swapping with other than three channels;
  - drawing with fewer than three channels;
  - `print_shape` of an empty vector, where `v.size() - 1` wraps around.
- IntToString: states the minus sign only for negative numbers (`n < 0 ==> s[0] == '-'`); the converse follows from IntToStringChars, which describes every character.
- Integer widths elsewhere (`int` pixel indices, `size_t` loop counters) are unbounded integers; every buffer index is proved in bounds instead.
