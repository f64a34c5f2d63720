/**
 * The discrete part of the classifier service: the label rule applied to the classifier's
 * probability, and the post-processing of a Grad-CAM map into a thresholded mask, the
 * percentage of the image it covers and the bounding box of its marked cells.
 *
 * The network, its forward and backward passes, the interpolation and normalisation of the
 * map, the colour map, the blending and the PNG encoder are not modelled: their results
 * (a probability, a 224x224 grid of map values, base64 text of rendered images) are inputs.
 */
module ModelService {
  import opened Wrappers
  import opened Strings

  /** Side of the Grad-CAM grid once it is upsampled to the network's input size. */
  const CAM_SIZE: nat := 224

  /** Probabilities at or above this value are classified as the positive class. */
  const THRESHOLD: real := 0.5

  /** Class names, indexed by the predicted class (0 = negative, 1 = positive). */
  const CLASSES: seq<string> := ["NORMAL", "FRACTURE"]

  // ---------------------------------------------------------------------------------------
  // Label rule
  // ---------------------------------------------------------------------------------------

  /** A probability, as the sigmoid of the classifier's logit yields it. */
  type Probability = p: real | 0.0 <= p <= 1.0

  datatype Prediction = Prediction(className: string, probability: real)

  /**
   * The tail of `predict_pil`: `probPos` is the sigmoid of the classifier's logit, which is
   * produced by the network and taken here as given.
   */
  function PredictPil(probPos: Probability): (r: Prediction)
    ensures r.probability == probPos && 0.0 <= r.probability <= 1.0
    ensures r.className in CLASSES
    ensures r.className == "FRACTURE" <==> probPos >= THRESHOLD
    ensures r.className == "NORMAL" <==> probPos < THRESHOLD
  {
    var pred := if probPos >= THRESHOLD then 1 else 0;
    Prediction(CLASSES[pred], probPos)
  }

  // ---------------------------------------------------------------------------------------
  // Grids, the CAM and its mask
  // ---------------------------------------------------------------------------------------

  /** `g` has `rows` rows of `cols` cells each. */
  predicate IsGrid<T>(g: seq<seq<T>>, rows: nat, cols: nat) {
    |g| == rows && forall r :: 0 <= r < |g| ==> |g[r]| == cols
  }

  /** A normalised Grad-CAM map after upsampling: 224 rows of 224 values. */
  type Cam = g: seq<seq<real>> | IsGrid(g, CAM_SIZE, CAM_SIZE)
    witness seq(CAM_SIZE, _ => seq(CAM_SIZE, _ => 0.0))

  /** `cam >= cam_thr`, cell by cell. */
  function Mask(cam: seq<seq<real>>, camThr: real): (m: seq<seq<bool>>)
    ensures |m| == |cam|
    ensures forall r :: 0 <= r < |m| ==> |m[r]| == |cam[r]|
  {
    seq(|cam|, r requires 0 <= r < |cam| =>
      seq(|cam[r]|, c requires 0 <= c < |cam[r]| => cam[r][c] >= camThr))
  }

  /** Cell (row `r`, column `c`) exists in `mask` and is true. */
  ghost predicate Marked(mask: seq<seq<bool>>, r: int, c: int) {
    0 <= r < |mask| && 0 <= c < |mask[r]| && mask[r][c]
  }

  /** `mask.any()`. */
  ghost predicate Any(mask: seq<seq<bool>>) {
    exists r, c :: Marked(mask, r, c)
  }

  /** A mask cell is set exactly when the map value there reaches the threshold. */
  lemma MaskMarked(cam: seq<seq<real>>, camThr: real, r: int, c: int)
    ensures Marked(Mask(cam, camThr), r, c)
        <==> 0 <= r < |cam| && 0 <= c < |cam[r]| && cam[r][c] >= camThr
  {
  }

  // ---------------------------------------------------------------------------------------
  // Counting marked cells and the mask area percentage
  // ---------------------------------------------------------------------------------------

  function CountRow(row: seq<bool>): nat {
    if row == [] then 0 else (if row[0] then 1 else 0) + CountRow(row[1..])
  }

  /** The number of true cells of `mask` (the sum behind `mask.mean()`). */
  function CountTrue(mask: seq<seq<bool>>): nat {
    if mask == [] then 0 else CountRow(mask[0]) + CountTrue(mask[1..])
  }

  lemma {:induction false} CountRowBounds(row: seq<bool>)
    ensures CountRow(row) <= |row|
    ensures CountRow(row) == 0 <==> forall c :: 0 <= c < |row| ==> !row[c]
  {
    if row != [] {
      CountRowBounds(row[1..]);
      assert forall c :: 1 <= c < |row| ==> row[1..][c - 1] == row[c];
    }
  }

  /** No marked cell is counted exactly when the mask has no marked cell. */
  lemma {:induction false} CountTrueZeroIff(mask: seq<seq<bool>>)
    ensures CountTrue(mask) == 0 <==> !Any(mask)
  {
    if mask != [] {
      CountTrueZeroIff(mask[1..]);
      CountRowBounds(mask[0]);
      if CountRow(mask[0]) > 0 {
        var c :| 0 <= c < |mask[0]| && mask[0][c];
        assert Marked(mask, 0, c);
      } else if Any(mask[1..]) {
        var r, c :| Marked(mask[1..], r, c);
        assert Marked(mask, r + 1, c);
      } else {
        forall r, c ensures !Marked(mask, r, c) {
          if r > 0 {
            assert !Marked(mask[1..], r - 1, c);
          }
        }
      }
    }
  }

  /** A `rows` by `cols` grid has at most `rows * cols` marked cells. */
  lemma {:induction false} CountTrueBound(mask: seq<seq<bool>>, rows: nat, cols: nat)
    requires IsGrid(mask, rows, cols)
    ensures CountTrue(mask) <= rows * cols
  {
    if mask != [] {
      CountRowBounds(mask[0]);
      assert IsGrid(mask[1..], rows - 1, cols);
      CountTrueBound(mask[1..], rows - 1, cols);
      assert (rows - 1) * cols + cols == rows * cols;
    }
  }

  lemma {:induction false} CountRowMonotone(small: seq<bool>, large: seq<bool>)
    requires |small| == |large|
    requires forall c :: 0 <= c < |small| && small[c] ==> large[c]
    ensures CountRow(small) <= CountRow(large)
  {
    if small != [] {
      CountRowMonotone(small[1..], large[1..]);
    }
  }

  /** A mask whose marked cells are all marked in another mask of the same shape counts no more. */
  lemma {:induction false} CountTrueMonotone(small: seq<seq<bool>>, large: seq<seq<bool>>)
    requires |small| == |large|
    requires forall r :: 0 <= r < |small| ==> |small[r]| == |large[r]|
    requires forall r, c :: Marked(small, r, c) ==> Marked(large, r, c)
    ensures CountTrue(small) <= CountTrue(large)
  {
    if small != [] {
      forall c | 0 <= c < |small[0]| && small[0][c] ensures large[0][c] {
        assert Marked(small, 0, c);
      }
      CountRowMonotone(small[0], large[0]);
      forall r, c | Marked(small[1..], r, c) ensures Marked(large[1..], r, c) {
        assert Marked(small, r + 1, c);
      }
      CountTrueMonotone(small[1..], large[1..]);
    }
  }

  /** Raising the threshold never increases the number of marked cells. */
  lemma MaskCountMonotone(cam: seq<seq<real>>, lower: real, higher: real)
    requires lower <= higher
    ensures CountTrue(Mask(cam, higher)) <= CountTrue(Mask(cam, lower))
  {
    forall r, c | Marked(Mask(cam, higher), r, c) ensures Marked(Mask(cam, lower), r, c) {
      MaskMarked(cam, higher, r, c);
      MaskMarked(cam, lower, r, c);
    }
    CountTrueMonotone(Mask(cam, higher), Mask(cam, lower));
  }

  /** `mask.mean() * 100.0`: the share of marked cells of a non-empty rectangular mask, in percent. */
  function MaskAreaPct(mask: seq<seq<bool>>): (pct: real)
    requires |mask| > 0 && IsGrid(mask, |mask|, |mask[0]|) && |mask[0]| > 0
    ensures 0.0 <= pct <= 100.0
    ensures pct == 0.0 <==> !Any(mask)
  {
    var total := |mask| * |mask[0]|;
    CountTrueBound(mask, |mask|, |mask[0]|);
    CountTrueZeroIff(mask);
    PercentBounds(CountTrue(mask), total);
    (CountTrue(mask) as real) / (total as real) * 100.0
  }

  /** Raising the threshold never increases the area percentage of the 224x224 mask. */
  lemma MaskAreaMonotone(cam: Cam, lower: real, higher: real)
    requires lower <= higher
    ensures MaskAreaPct(Mask(cam, higher)) <= MaskAreaPct(Mask(cam, lower))
  {
    var lo, hi := Mask(cam, lower), Mask(cam, higher);
    assert IsGrid(lo, CAM_SIZE, CAM_SIZE) && IsGrid(hi, CAM_SIZE, CAM_SIZE);
    MaskCountMonotone(cam, lower, higher);
    var total := (CAM_SIZE * CAM_SIZE) as real;
    assert (CountTrue(hi) as real) / total <= (CountTrue(lo) as real) / total;
  }

  lemma PercentBounds(count: nat, total: nat)
    requires 0 < total && count <= total
    ensures 0.0 <= (count as real) / (total as real) * 100.0 <= 100.0
    ensures (count as real) / (total as real) * 100.0 == 0.0 <==> count == 0
  {
    assert (count as real) / (total as real) <= 1.0;
  }

  // ---------------------------------------------------------------------------------------
  // Bounding box: `ys, xs = np.where(mask)` and the min/max reductions
  // ---------------------------------------------------------------------------------------

  datatype Cell = Cell(row: nat, col: nat)

  /** `[x0, y0, w, h]`: left column, top row, width and height. */
  datatype Box = Box(x0: int, y0: int, w: int, h: int) {
    /** The right-most column inside the box (`x1`). */
    function Right(): int { x0 + w - 1 }

    /** The bottom row inside the box (`y1`). */
    function Bottom(): int { y0 + h - 1 }
  }

  /** The true cells of `row` (which is row `r` of a mask) from column `c` on, left to right. */
  function WhereRow(row: seq<bool>, r: nat, c: nat): (cells: seq<Cell>)
    requires c <= |row|
    decreases |row| - c
    ensures forall cell :: cell in cells <==> cell.row == r && c <= cell.col < |row| && row[cell.col]
  {
    if c == |row| then []
    else (if row[c] then [Cell(r, c)] else []) + WhereRow(row, r, c + 1)
  }

  /** The true cells of rows `r..` of `mask`, in row-major order. */
  function WhereRows(mask: seq<seq<bool>>, r: nat): (cells: seq<Cell>)
    requires r <= |mask|
    decreases |mask| - r
    ensures forall cell :: cell in cells <==> r <= cell.row && Marked(mask, cell.row, cell.col)
  {
    if r == |mask| then [] else WhereRow(mask[r], r, 0) + WhereRows(mask, r + 1)
  }

  /** `np.where(mask)`, as one sequence of (row, column) pairs in row-major order. */
  function Where(mask: seq<seq<bool>>): (cells: seq<Cell>)
    ensures forall cell :: cell in cells <==> Marked(mask, cell.row, cell.col)
  {
    WhereRows(mask, 0)
  }

  /** The `ys` of `np.where`: the row of each cell. */
  function Ys(cells: seq<Cell>): seq<int> {
    seq(|cells|, i requires 0 <= i < |cells| => cells[i].row as int)
  }

  /** The `xs` of `np.where`: the column of each cell. */
  function Xs(cells: seq<Cell>): seq<int> {
    seq(|cells|, i requires 0 <= i < |cells| => cells[i].col as int)
  }

  /** `s.min()` of a non-empty sequence. */
  function Min(s: seq<int>): (m: int)
    requires |s| > 0
    ensures m in s && forall x :: x in s ==> m <= x
  {
    if |s| == 1 then s[0]
    else
      var rest := Min(s[1..]);
      assert forall x :: x in s ==> x == s[0] || x in s[1..];
      if s[0] <= rest then s[0] else rest
  }

  /** `s.max()` of a non-empty sequence. */
  function Max(s: seq<int>): (m: int)
    requires |s| > 0
    ensures m in s && forall x :: x in s ==> x <= m
  {
    if |s| == 1 then s[0]
    else
      var rest := Max(s[1..]);
      assert forall x :: x in s ==> x == s[0] || x in s[1..];
      if s[0] >= rest then s[0] else rest
  }

  /** The box of `gradcam_pil`: `None` when no cell is marked, else the extreme columns and rows. */
  function BoundingBox(mask: seq<seq<bool>>): Option<Box> {
    var cells := Where(mask);
    if |cells| == 0 then None
    else
      var ys, xs := Ys(cells), Xs(cells);
      var x0, y0 := Min(xs), Min(ys);
      var x1, y1 := Max(xs), Max(ys);
      Some(Box(x0, y0, x1 - x0 + 1, y1 - y0 + 1))
  }

  /** Cell (row `r`, column `c`) lies inside box `b`. */
  ghost predicate Contains(b: Box, r: int, c: int) {
    b.y0 <= r <= b.Bottom() && b.x0 <= c <= b.Right()
  }

  /**
   * `b` is the minimal axis-aligned box of the marked cells of `mask`: it is at least one cell
   * wide and high, contains every marked cell, and each of its four edges holds a marked cell.
   */
  ghost predicate IsTightBox(mask: seq<seq<bool>>, b: Box) {
    && b.w >= 1 && b.h >= 1
    && (forall r, c :: Marked(mask, r, c) ==> Contains(b, r, c))
    && (exists r :: Marked(mask, r, b.x0))
    && (exists r :: Marked(mask, r, b.Right()))
    && (exists c :: Marked(mask, b.y0, c))
    && (exists c :: Marked(mask, b.Bottom(), c))
  }

  /** Every marked cell occurs in `np.where`'s output, at some position. */
  lemma WhereHasMarked(mask: seq<seq<bool>>, r: int, c: int) returns (i: nat)
    requires Marked(mask, r, c)
    ensures i < |Where(mask)| && Where(mask)[i] == Cell(r, c)
  {
    assert Cell(r, c) in Where(mask);
    i :| 0 <= i < |Where(mask)| && Where(mask)[i] == Cell(r, c);
  }

  /** Every cell in `np.where`'s output is marked. */
  lemma WhereMarked(mask: seq<seq<bool>>, i: nat)
    requires i < |Where(mask)|
    ensures Marked(mask, Where(mask)[i].row, Where(mask)[i].col)
  {
    assert Where(mask)[i] in Where(mask);
  }

  /** The box is absent exactly when no cell is marked. */
  lemma BoundingBoxAbsent(mask: seq<seq<bool>>)
    ensures BoundingBox(mask).None? <==> !Any(mask)
  {
    if |Where(mask)| == 0 {
      forall r, c ensures !Marked(mask, r, c) {
        if Marked(mask, r, c) {
          var i := WhereHasMarked(mask, r, c);
        }
      }
    } else {
      WhereMarked(mask, 0);
    }
  }

  /** A present box contains every marked cell. */
  lemma BoundingBoxCovers(mask: seq<seq<bool>>)
    requires BoundingBox(mask).Some?
    ensures forall r, c :: Marked(mask, r, c) ==> Contains(BoundingBox(mask).value, r, c)
  {
    var cells := Where(mask);
    var ys, xs := Ys(cells), Xs(cells);
    forall r, c | Marked(mask, r, c) ensures Contains(BoundingBox(mask).value, r, c) {
      var i := WhereHasMarked(mask, r, c);
      assert xs[i] in xs && ys[i] in ys;
    }
  }

  /** Each of the four edges of a present box holds a marked cell. */
  lemma BoundingBoxTouches(mask: seq<seq<bool>>)
    requires BoundingBox(mask).Some?
    ensures var b := BoundingBox(mask).value;
      && (exists r :: Marked(mask, r, b.x0))
      && (exists r :: Marked(mask, r, b.Right()))
      && (exists c :: Marked(mask, b.y0, c))
      && (exists c :: Marked(mask, b.Bottom(), c))
  {
    var cells := Where(mask);
    var ys, xs := Ys(cells), Xs(cells);
    var b := BoundingBox(mask).value;
    assert b.x0 == Min(xs) && b.Right() == Max(xs) && b.y0 == Min(ys) && b.Bottom() == Max(ys);
    ColumnMarked(mask, Min(xs));
    ColumnMarked(mask, Max(xs));
    RowMarked(mask, Min(ys));
    RowMarked(mask, Max(ys));
  }

  /** A column that occurs among the `xs` of `np.where` holds a marked cell. */
  lemma ColumnMarked(mask: seq<seq<bool>>, c: int)
    requires c in Xs(Where(mask))
    ensures exists r :: Marked(mask, r, c)
  {
    var xs := Xs(Where(mask));
    var i :| 0 <= i < |xs| && xs[i] == c;
    WhereMarked(mask, i);
    assert Marked(mask, Where(mask)[i].row, c);
  }

  /** A row that occurs among the `ys` of `np.where` holds a marked cell. */
  lemma RowMarked(mask: seq<seq<bool>>, r: int)
    requires r in Ys(Where(mask))
    ensures exists c :: Marked(mask, r, c)
  {
    var ys := Ys(Where(mask));
    var i :| 0 <= i < |ys| && ys[i] == r;
    WhereMarked(mask, i);
    assert Marked(mask, r, Where(mask)[i].col);
  }

  /** The box is absent exactly when no cell is marked, and otherwise it is the minimal box. */
  lemma BoundingBoxIsTight(mask: seq<seq<bool>>)
    ensures BoundingBox(mask).None? <==> !Any(mask)
    ensures BoundingBox(mask).Some? ==> IsTightBox(mask, BoundingBox(mask).value)
  {
    BoundingBoxAbsent(mask);
    if BoundingBox(mask).Some? {
      BoundingBoxCovers(mask);
      BoundingBoxTouches(mask);
    }
  }

  /** The minimal box is unique: two boxes that are both tight for one mask are equal. */
  lemma TightBoxUnique(mask: seq<seq<bool>>, b1: Box, b2: Box)
    requires IsTightBox(mask, b1) && IsTightBox(mask, b2)
    ensures b1 == b2
  {
    var r0 :| Marked(mask, r0, b1.x0);
    var r1 :| Marked(mask, r1, b1.Right());
    var c0 :| Marked(mask, b1.y0, c0);
    var c1 :| Marked(mask, b1.Bottom(), c1);
    assert Contains(b2, r0, b1.x0) && Contains(b2, r1, b1.Right());
    assert Contains(b2, b1.y0, c0) && Contains(b2, b1.Bottom(), c1);
    var s0 :| Marked(mask, s0, b2.x0);
    var s1 :| Marked(mask, s1, b2.Right());
    var d0 :| Marked(mask, b2.y0, d0);
    var d1 :| Marked(mask, b2.Bottom(), d1);
    assert Contains(b1, s0, b2.x0) && Contains(b1, s1, b2.Right());
    assert Contains(b1, b2.y0, d0) && Contains(b1, b2.Bottom(), d1);
  }

  /** The box of a `rows` by `cols` mask stays inside the grid. */
  lemma BoundingBoxWithinGrid(mask: seq<seq<bool>>, rows: nat, cols: nat)
    requires IsGrid(mask, rows, cols)
    ensures BoundingBox(mask).Some? ==> var b := BoundingBox(mask).value;
      0 <= b.x0 && b.Right() <= cols - 1 && 0 <= b.y0 && b.Bottom() <= rows - 1
  {
    BoundingBoxIsTight(mask);
    if BoundingBox(mask).Some? {
      var b := BoundingBox(mask).value;
      var r0 :| Marked(mask, r0, b.x0);
      var r1 :| Marked(mask, r1, b.Right());
      var c0 :| Marked(mask, b.y0, c0);
      var c1 :| Marked(mask, b.Bottom(), c1);
    }
  }

  /** A mask that is marked on exactly one rectangle has that rectangle as its box. */
  lemma BoundingBoxOfRectangle(mask: seq<seq<bool>>, rect: Box)
    requires rect.w >= 1 && rect.h >= 1 && rect.x0 >= 0 && rect.y0 >= 0
    requires rect.y0 + rect.h <= |mask|
    requires forall r :: 0 <= r < |mask| ==> rect.x0 + rect.w <= |mask[r]|
    requires forall r, c :: 0 <= r < |mask| && 0 <= c < |mask[r]| ==> (mask[r][c] <==> Contains(rect, r, c))
    ensures BoundingBox(mask) == Some(rect)
  {
    assert Marked(mask, rect.y0, rect.x0) && Marked(mask, rect.Bottom(), rect.Right());
    assert IsTightBox(mask, rect);
    BoundingBoxIsTight(mask);
    TightBoxUnique(mask, BoundingBox(mask).value, rect);
  }

  /**
   * Raising the threshold can only shrink the box: whenever the higher threshold leaves a box,
   * the lower one leaves a box that encloses it.
   */
  lemma BoundingBoxShrinks(cam: seq<seq<real>>, lower: real, higher: real)
    requires lower <= higher
    requires BoundingBox(Mask(cam, higher)).Some?
    ensures BoundingBox(Mask(cam, lower)).Some?
    ensures var outer, inner := BoundingBox(Mask(cam, lower)).value, BoundingBox(Mask(cam, higher)).value;
      outer.x0 <= inner.x0 && inner.x0 + inner.w <= outer.x0 + outer.w
      && outer.y0 <= inner.y0 && inner.y0 + inner.h <= outer.y0 + outer.h
  {
    var lo, hi := Mask(cam, lower), Mask(cam, higher);
    BoundingBoxIsTight(hi);
    BoundingBoxIsTight(lo);
    var inner := BoundingBox(hi).value;
    var r0 :| Marked(hi, r0, inner.x0);
    var r1 :| Marked(hi, r1, inner.Right());
    var c0 :| Marked(hi, inner.y0, c0);
    var c1 :| Marked(hi, inner.Bottom(), c1);
    MaskMarked(cam, higher, r0, inner.x0);
    MaskMarked(cam, lower, r0, inner.x0);
    MaskMarked(cam, higher, r1, inner.Right());
    MaskMarked(cam, lower, r1, inner.Right());
    MaskMarked(cam, higher, inner.y0, c0);
    MaskMarked(cam, lower, inner.y0, c0);
    MaskMarked(cam, higher, inner.Bottom(), c1);
    MaskMarked(cam, lower, inner.Bottom(), c1);
  }

  // ---------------------------------------------------------------------------------------
  // Data URLs
  // ---------------------------------------------------------------------------------------

  /** `f"data:{mime};base64,{b64}"`. */
  function DataUrl(mime: string, b64: string): (url: string)
    ensures StartsWith(url, "data:" + mime + ";base64,")
    ensures |url| == |mime| + |b64| + 13 && url[|mime| + 13..] == b64
  {
    "data:" + mime + ";base64," + b64
  }

  /** Reads a data URL back into its media type and its base64 payload. */
  function ParseDataUrl(url: string): Option<(string, string)> {
    if !StartsWith(url, "data:") then None
    else
      var rest := url[5..];
      match IndexOf(rest, ';')
      case None => None
      case Some(i) =>
        if StartsWith(rest[i..], ";base64,") then Some((rest[..i], rest[i + 8..])) else None
  }

  /** A data URL whose media type holds no `;` gives back its media type and payload. */
  lemma DataUrlRoundTrip(mime: string, b64: string)
    requires ';' !in mime
    ensures ParseDataUrl(DataUrl(mime, b64)) == Some((mime, b64))
  {
    var tail := ";base64," + b64;
    var rest := mime + tail;
    assert DataUrl(mime, b64) == "data:" + rest;
    ConcatSlices("data:", rest);
    ConcatSlices(mime, tail);
    ConcatSlices(";base64,", b64);
    IndexOfFirst(rest, ';', |mime|);
    assert rest[|mime| + 8..] == tail[8..];
  }

  /** `_to_data_url_png`: the base64 text of a PNG encoding, as a data URL. */
  function ToDataUrlPng(pngB64: string): (url: string)
    ensures ParseDataUrl(url) == Some(("image/png", pngB64))
  {
    DataUrlRoundTrip("image/png", pngB64);
    DataUrl("image/png", pngB64)
  }

  // ---------------------------------------------------------------------------------------
  // Grad-CAM post-processing
  // ---------------------------------------------------------------------------------------

  /** Base64 text of the PNG encodings of the four rendered images (rendering is not modelled). */
  datatype Renders = Renders(input224: string, heatmap: string, overlay: string, overlayBox: string)

  /** What the capture step yields: the normalised map and the rendered images. */
  datatype Capture = Capture(cam: Cam, renders: Renders)

  /** The dictionary returned by `gradcam_pil`. */
  datatype CamResult = CamResult(
    camThr: real,
    maskAreaPct: real,
    box224: Option<Box>,
    input224DataUrl: string,
    camHeatmapDataUrl: string,
    overlayDataUrl: string,
    overlayBoxDataUrl: string)

  /** `gradcam_pil` after the map is computed: mask, area percentage, box and encoded images. */
  function GradCamPil(capture: Capture, camThr: real): CamResult {
    var mask := Mask(capture.cam, camThr);
    assert IsGrid(mask, CAM_SIZE, CAM_SIZE);
    CamResult(
      camThr, MaskAreaPct(mask), BoundingBox(mask),
      ToDataUrlPng(capture.renders.input224),
      ToDataUrlPng(capture.renders.heatmap),
      ToDataUrlPng(capture.renders.overlay),
      ToDataUrlPng(capture.renders.overlayBox))
  }

  /**
   * What `gradcam_pil` promises about its result: the threshold is echoed, the area is a
   * percentage that is zero exactly when no map value reaches the threshold, and exactly then
   * is the box absent; a present box is the minimal box of those cells and lies in the grid;
   * every image comes back as a PNG data URL of its encoding.
   */
  lemma GradCamPilSpec(capture: Capture, camThr: real)
    ensures var r := GradCamPil(capture, camThr);
      && r.camThr == camThr
      && 0.0 <= r.maskAreaPct <= 100.0
      && (r.box224.None? <==> r.maskAreaPct == 0.0)
      && (r.box224.None? <==>
            forall i, j :: 0 <= i < CAM_SIZE && 0 <= j < CAM_SIZE ==> capture.cam[i][j] < camThr)
      && (r.box224.Some? ==>
            var b := r.box224.value;
            && b.w >= 1 && b.h >= 1
            && 0 <= b.x0 && b.Right() <= 223 && 0 <= b.y0 && b.Bottom() <= 223
            && (forall i, j :: 0 <= i < CAM_SIZE && 0 <= j < CAM_SIZE && capture.cam[i][j] >= camThr
                  ==> Contains(b, i, j))
            && IsTightBox(Mask(capture.cam, camThr), b))
      && ParseDataUrl(r.input224DataUrl) == Some(("image/png", capture.renders.input224))
      && ParseDataUrl(r.camHeatmapDataUrl) == Some(("image/png", capture.renders.heatmap))
      && ParseDataUrl(r.overlayDataUrl) == Some(("image/png", capture.renders.overlay))
      && ParseDataUrl(r.overlayBoxDataUrl) == Some(("image/png", capture.renders.overlayBox))
  {
    var mask := Mask(capture.cam, camThr);
    assert IsGrid(mask, CAM_SIZE, CAM_SIZE);
    BoundingBoxIsTight(mask);
    BoundingBoxWithinGrid(mask, CAM_SIZE, CAM_SIZE);
    MarkedCam(capture.cam, camThr);
  }

  lemma MarkedCam(cam: Cam, camThr: real)
    ensures forall i, j :: (Marked(Mask(cam, camThr), i, j)
        <==> 0 <= i < CAM_SIZE && 0 <= j < CAM_SIZE && cam[i][j] >= camThr)
  {
    forall i, j ensures Marked(Mask(cam, camThr), i, j)
        <==> 0 <= i < CAM_SIZE && 0 <= j < CAM_SIZE && cam[i][j] >= camThr {
      MaskMarked(cam, camThr, i, j);
    }
  }
}
