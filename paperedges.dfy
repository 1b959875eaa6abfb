/** The decisions of `PaperFactory.check_paper_edges`: whether the Otsu mask is complemented,
    whether the texture is cropped to its dominant contour, and the crop bounds taken from
    the contour's rotated bounding box. The mask, the blurred image, the contour areas and
    the box corners are inputs, because OpenCV computes them. */
module PaperEdges {
  import opened Numeric
  import opened Grid

  // ---------------------------------------------------------------- complement decision

  /** `255 - texture_binary`. */
  function Complement(g: seq<seq<int>>): (r: seq<seq<int>>)
    ensures |r| == |g|
    ensures forall i :: 0 <= i < |g| ==> |r[i]| == |g[i]|
    ensures forall i, j :: 0 <= i < |g| && 0 <= j < |g[i]| ==> r[i][j] + g[i][j] == 255
  {
    seq(|g|, i requires 0 <= i < |g| => seq(|g[i]|, j requires 0 <= j < |g[i]| => 255 - g[i][j]))
  }

  /** Every pixel is 0 or 255, as the Otsu threshold produces. */
  predicate IsBinary(g: seq<seq<int>>) {
    forall i, j :: 0 <= i < |g| && 0 <= j < |g[i]| ==> g[i][j] == 0 || g[i][j] == 255
  }

  /** Complementing twice gives the mask back. */
  lemma ComplementInvolution(g: seq<seq<int>>)
    ensures Complement(Complement(g)) == g
  {
    var c := Complement(Complement(g));
    forall i | 0 <= i < |g|
      ensures c[i] == g[i]
    {
      assert forall j :: 0 <= j < |g[i]| ==> c[i][j] == g[i][j];
    }
  }

  /** Complementing a binary mask gives a binary mask, with 0 and 255 exchanged. */
  lemma ComplementKeepsBinary(g: seq<seq<int>>)
    requires IsBinary(g)
    ensures IsBinary(Complement(g))
    ensures forall i, j :: 0 <= i < |g| && 0 <= j < |g[i]| ==>
              (Complement(g)[i][j] == 0 <==> g[i][j] == 255)
  {
  }

  /** Pixels of the image lie in [0, 255]. */
  predicate IsByteImage(g: seq<seq<int>>) {
    forall i, j :: 0 <= i < |g| && 0 <= j < |g[i]| ==> 0 <= g[i][j] <= 255
  }

  /** The mean of the four 10-pixel border bands: `[:, :10]`, `[:, -10:]`, `[:10, :]` and
      `[-10:, :]`, each clamped to the image as numpy does. On a byte image it is a byte
      value. */
  function BorderAverage(g: seq<seq<int>>): (r: real)
    requires Rectangular(g) && |g| >= 1 && Width(g) >= 1
    ensures IsByteImage(g) ==> 0.0 <= r <= 255.0
  {
    var h, w := |g|, Width(g);
    var right, bottom := ClampIndex(-10, w), ClampIndex(-10, h);
    if IsByteImage(g) then
      BlockMeanBounds(g, 0, 0, h, Min(10, w), 0, 255);
      BlockMeanBounds(g, 0, right, h, w - right, 0, 255);
      BlockMeanBounds(g, 0, 0, Min(10, h), w, 0, 255);
      BlockMeanBounds(g, bottom, 0, h - bottom, w, 0, 255);
      BorderBands(g)
    else
      BorderBands(g)
  }

  /** The sum of the four band means over 4. */
  function BorderBands(g: seq<seq<int>>): real
    requires Rectangular(g) && |g| >= 1 && Width(g) >= 1
  {
    var h, w := |g|, Width(g);
    var right, bottom := ClampIndex(-10, w), ClampIndex(-10, h);
    (BlockMean(g, 0, 0, h, Min(10, w)) + BlockMean(g, 0, right, h, w - right)
     + BlockMean(g, 0, 0, Min(10, h), w) + BlockMean(g, bottom, 0, h - bottom, w)) / 4.0
  }

  /** A run of rows (or columns) `[lo, lo + len)`. */
  datatype Span = Span(lo: nat, len: nat)

  /** The rows that `[c - 10 : c + 10]` keeps on a side of length `n`, as written (line 334):
      a negative start counts from the far end, so on a side shorter than 20 the window
      slides away from the centre. */
  function CentreSpanAsWritten(c: int, n: nat): (s: Span)
    ensures s.lo + s.len <= n
  {
    Span(SliceLo(c - 10, n), SliceLen(c - 10, c + 10, n))
  }

  /** A 12-row texture: the window as written is rows 8 to 11, which leaves out the centre row 6. */
  lemma SmallTextureWindowMissesCentre()
    ensures CentreSpanAsWritten(12 / 2, 12) == Span(8, 4)
    ensures !(8 <= 12 / 2 < 8 + 4)
  {
  }

  /** The evidently intended window: up to 10 rows either side of the centre, clamped at the
      near border instead of wrapped round to the far one. */
  function CentreSpan(c: nat, n: nat): (s: Span)
    requires c < n
    ensures s.lo + s.len <= n
    ensures s.lo <= c < s.lo + s.len
    ensures s.len <= 20
  {
    var lo := Max(c - 10, 0);
    Span(lo, Min(c + 10, n) - lo)
  }

  /** On a side of 20 or more the two windows agree, so the correction changes nothing for
      textures of ordinary size. */
  lemma SpansAgreeOnLargeSides(n: nat)
    requires n >= 20
    ensures CentreSpanAsWritten(n / 2, n) == CentreSpan(n / 2, n)
  {
  }

  /** `center_average`: the mean of the blurred image over the centre window. */
  function CentreAverage(blur: seq<seq<int>>): (r: real)
    requires Rectangular(blur) && |blur| >= 1 && Width(blur) >= 1
    ensures IsByteImage(blur) ==> 0.0 <= r <= 255.0
  {
    var rows, cols := CentreSpan(|blur| / 2, |blur|), CentreSpan(Width(blur) / 2, Width(blur));
    if IsByteImage(blur) then
      BlockMeanBounds(blur, rows.lo, cols.lo, rows.len, cols.len, 0, 255);
      BlockMean(blur, rows.lo, cols.lo, rows.len, cols.len)
    else
      BlockMean(blur, rows.lo, cols.lo, rows.len, cols.len)
  }

  /** The mask after lines 337-338: complemented exactly when its border is brighter than the
      centre of the blurred image, so that the paper, not the background, is white. */
  function OrientMask(binary: seq<seq<int>>, blur: seq<seq<int>>): (r: seq<seq<int>>)
    requires Rectangular(binary) && |binary| >= 1 && Width(binary) >= 1
    requires Rectangular(blur) && |blur| >= 1 && Width(blur) >= 1
    ensures r == Complement(binary) || r == binary
    ensures r == binary <== BorderAverage(binary) <= CentreAverage(blur)
    ensures r == Complement(binary) <== BorderAverage(binary) > CentreAverage(blur)
  {
    if BorderAverage(binary) > CentreAverage(blur) then Complement(binary) else binary
  }

  /** The oriented mask stays binary whichever way the decision goes. */
  lemma OrientedMaskBinary(binary: seq<seq<int>>, blur: seq<seq<int>>)
    requires Rectangular(binary) && |binary| >= 1 && Width(binary) >= 1
    requires Rectangular(blur) && |blur| >= 1 && Width(blur) >= 1
    requires IsBinary(binary)
    ensures IsBinary(OrientMask(binary, blur))
  {
    ComplementKeepsBinary(binary);
  }

  // ---------------------------------------------------------------- contour walk

  /** `order` is `reversed(np.argsort(areas))`: a permutation of the contour indices that
      lists the areas from the largest down. The order among equal areas is left open. */
  predicate LargestFirst(areas: seq<real>, order: seq<nat>) {
    && |order| == |areas|
    && (forall p :: 0 <= p < |order| ==> order[p] < |areas|)
    && (forall p, q :: 0 <= p < q < |order| ==> order[p] != order[q])
    && (forall k :: 0 <= k < |areas| ==> k in order)
    && (forall p, q :: 0 <= p < q < |order| ==> areas[order[p]] >= areas[order[q]])
  }

  /** The threshold `ysize * xsize * 0.65`. */
  function MinArea(h: nat, w: nat): real {
    (h * w) as real * 0.65
  }

  /** Exactly one contour reaches the threshold. */
  ghost predicate UniqueLarge(areas: seq<real>, minArea: real) {
    && (exists k :: 0 <= k < |areas| && areas[k] >= minArea)
    && (forall j, k :: 0 <= j < |areas| && 0 <= k < |areas| && areas[j] >= minArea && areas[k] >= minArea ==> j == k)
  }

  /** The walk of lines 357-373. Every path leaves it at the first index: the last-index
      branch either keeps the only contour or returns, and the other branch either breaks
      or returns. The result is the contour to crop to, or `None` for "return the texture
      unchanged". */
  method SelectContour(areas: seq<real>, order: seq<nat>, minArea: real) returns (chosen: Option<nat>)
    requires LargestFirst(areas, order)
    ensures chosen.Some? <==> UniqueLarge(areas, minArea)
    ensures chosen.Some? ==> chosen.value < |areas| && areas[chosen.value] >= minArea
  {
    if |areas| == 0 {
      return None;
    }
    var contour := order[0];
    var i := 0;
    while i < |order|
      invariant i == 0 || (i == 1 && |order| == 1 && areas[order[0]] >= minArea && contour == order[0])
      decreases |order| - i
    {
      if i == |order| - 1 {
        if areas[order[i]] >= minArea {
          contour := order[i];
        } else {
          WalkRejects(areas, order, minArea);
          return None;
        }
      } else {
        if areas[order[i]] >= minArea && areas[order[i + 1]] < minArea {
          contour := order[i];
          break;
        } else {
          WalkRejects(areas, order, minArea);
          return None;
        }
      }
      i := i + 1;
    }
    WalkAccepts(areas, order, minArea);
    return Some(contour);
  }

  /** What the first step of the walk tests. */
  predicate FirstStepAccepts(areas: seq<real>, order: seq<nat>, minArea: real)
    requires LargestFirst(areas, order) && |areas| >= 1
  {
    areas[order[0]] >= minArea && (|order| == 1 || areas[order[1]] < minArea)
  }

  lemma WalkAccepts(areas: seq<real>, order: seq<nat>, minArea: real)
    requires LargestFirst(areas, order) && |areas| >= 1
    requires FirstStepAccepts(areas, order, minArea)
    ensures UniqueLarge(areas, minArea)
  {
    assert order[0] < |areas| && areas[order[0]] >= minArea;
    forall j, k | 0 <= j < |areas| && 0 <= k < |areas| && areas[j] >= minArea && areas[k] >= minArea
      ensures j == k
    {
      OnlyFirstLarge(areas, order, minArea, j);
      OnlyFirstLarge(areas, order, minArea, k);
    }
  }

  /** When the walk accepts, the largest contour is the only one at the threshold. */
  lemma OnlyFirstLarge(areas: seq<real>, order: seq<nat>, minArea: real, k: nat)
    requires LargestFirst(areas, order) && |areas| >= 1
    requires FirstStepAccepts(areas, order, minArea)
    requires k < |areas| && areas[k] >= minArea
    ensures k == order[0]
  {
    forall q | 1 <= q < |order|
      ensures areas[order[q]] < minArea
    {
      if q > 1 {
        assert areas[order[1]] >= areas[order[q]];
      }
    }
    assert k in order;
    var p :| 0 <= p < |order| && order[p] == k;
  }

  lemma WalkRejects(areas: seq<real>, order: seq<nat>, minArea: real)
    requires LargestFirst(areas, order) && |areas| >= 1
    requires !FirstStepAccepts(areas, order, minArea)
    ensures !UniqueLarge(areas, minArea)
  {
    if areas[order[0]] < minArea {
      forall k | 0 <= k < |areas|
        ensures areas[k] < minArea
      {
        assert k in order;
        var p :| 0 <= p < |order| && order[p] == k;
        if p > 0 {
          assert areas[order[0]] >= areas[order[p]];
        }
      }
    } else {
      assert areas[order[1]] >= minArea && order[0] != order[1];
    }
  }

  /** No contour at all, or two at the threshold, leaves the texture unchanged. */
  lemma NoCropCases(areas: seq<real>, minArea: real)
    ensures |areas| == 0 ==> !UniqueLarge(areas, minArea)
    ensures |areas| >= 2 && areas[0] >= minArea && areas[1] >= minArea ==> !UniqueLarge(areas, minArea)
  {
  }

  // ---------------------------------------------------------------- crop bounds

  /** A corner of the rotated box as `cv2.boxPoints` gives it, in floating point. */
  datatype BoxPoint = BoxPoint(x: real, y: real)

  /** A corner after `np.int0`: truncated toward zero. */
  datatype Corner = Corner(x: int, y: int)

  function ToCorner(p: BoxPoint): (c: Corner)
    ensures c.x as real <= p.x < c.x as real + 1.0 || c.x as real - 1.0 < p.x <= c.x as real
    ensures c.y as real <= p.y < c.y as real + 1.0 || c.y as real - 1.0 < p.y <= c.y as real
  {
    Corner(Trunc(p.x), Trunc(p.y))
  }

  /** `np.int0(cv2.boxPoints(rect))`: every corner truncated. */
  function Corners(pts: seq<BoxPoint>): (r: seq<Corner>)
    ensures |r| == |pts|
    ensures forall i :: 0 <= i < |pts| ==> r[i] == ToCorner(pts[i])
  {
    seq(|pts|, i requires 0 <= i < |pts| => ToCorner(pts[i]))
  }

  predicate SortedAsc(s: seq<int>) {
    forall i, j :: 0 <= i < j < |s| ==> s[i] <= s[j]
  }

  function Insert(x: int, s: seq<int>): (r: seq<int>)
    requires SortedAsc(s)
    ensures |r| == |s| + 1
    ensures r[0] == if |s| == 0 || x <= s[0] then x else s[0]
    ensures SortedAsc(r) && multiset(r) == multiset(s) + multiset{x}
  {
    if |s| == 0 then [x]
    else if x <= s[0] then [x] + s
    else
      assert s == [s[0]] + s[1..];
      var t := Insert(x, s[1..]);
      ConsSorted(s[0], t);
      [s[0]] + t
  }

  lemma ConsSorted(x: int, t: seq<int>)
    requires SortedAsc(t) && |t| > 0 && x <= t[0]
    ensures SortedAsc([x] + t)
  {
    var r := [x] + t;
    forall i, j | 0 <= i < j < |r|
      ensures r[i] <= r[j]
    {
      if i > 0 {
        assert r[i] == t[i - 1] && r[j] == t[j - 1];
      } else {
        assert r[j] == t[j - 1] && t[0] <= t[j - 1];
      }
    }
  }

  /** `np.sort`: ascending, the same values. */
  function Sort(s: seq<int>): (r: seq<int>)
    ensures SortedAsc(r) && multiset(r) == multiset(s)
    ensures |r| == |s|
  {
    if |s| == 0 then []
    else
      assert s == s[..|s| - 1] + [s[|s| - 1]];
      Insert(s[|s| - 1], Sort(s[..|s| - 1]))
  }

  function Ys(box: seq<Corner>): (r: seq<int>)
    ensures |r| == |box|
  {
    seq(|box|, i requires 0 <= i < |box| => box[i].y)
  }

  function Xs(box: seq<Corner>): (r: seq<int>)
    ensures |r| == |box|
  {
    seq(|box|, i requires 0 <= i < |box| => box[i].x)
  }

  /** Crop bounds: the second and third smallest corner coordinates on each axis. */
  datatype Bounds = Bounds(top: int, bottom: int, left: int, right: int)

  function CropBounds(box: seq<Corner>): (b: Bounds)
    requires |box| == 4
    ensures b.top <= b.bottom && b.left <= b.right
    ensures b.top in Ys(box) && b.bottom in Ys(box) && b.left in Xs(box) && b.right in Xs(box)
    ensures exists i :: 0 <= i < 4 && box[i].y <= b.top
    ensures exists i :: 0 <= i < 4 && box[i].y >= b.bottom
    ensures exists i :: 0 <= i < 4 && box[i].x <= b.left
    ensures exists i :: 0 <= i < 4 && box[i].x >= b.right
  {
    var ys, xs := Sort(Ys(box)), Sort(Xs(box));
    MiddleBounds(box);
    Bounds(ys[1], ys[2], xs[1], xs[2])
  }

  /** `CropBounds` on each axis. */
  lemma MiddleBounds(box: seq<Corner>)
    requires |box| == 4
    ensures Sort(Ys(box))[1] <= Sort(Ys(box))[2] && Sort(Xs(box))[1] <= Sort(Xs(box))[2]
    ensures Sort(Ys(box))[1] in Ys(box) && Sort(Ys(box))[2] in Ys(box)
    ensures Sort(Xs(box))[1] in Xs(box) && Sort(Xs(box))[2] in Xs(box)
    ensures exists i :: 0 <= i < 4 && box[i].y <= Sort(Ys(box))[1]
    ensures exists i :: 0 <= i < 4 && box[i].y >= Sort(Ys(box))[2]
    ensures exists i :: 0 <= i < 4 && box[i].x <= Sort(Xs(box))[1]
    ensures exists i :: 0 <= i < 4 && box[i].x >= Sort(Xs(box))[2]
  {
    var ys, xs := Ys(box), Xs(box);
    MiddlePair(ys);
    MiddlePair(xs);
    assert forall i :: 0 <= i < 4 ==> ys[i] == box[i].y && xs[i] == box[i].x;
  }

  /** The 2nd and 3rd order statistics of four values: in order, each one of the values, and
      with a value at or below the first and one at or above the second. */
  lemma MiddlePair(s: seq<int>)
    requires |s| == 4
    ensures Sort(s)[1] <= Sort(s)[2]
    ensures Sort(s)[1] in s && Sort(s)[2] in s
    ensures exists i :: 0 <= i < 4 && s[i] <= Sort(s)[1]
    ensures exists i :: 0 <= i < 4 && s[i] >= Sort(s)[2]
    ensures forall i :: 0 <= i < 4 ==> Sort(s)[0] <= s[i] <= Sort(s)[3]
  {
    var r := Sort(s);
    assert r[0] in multiset(r) && r[1] in multiset(r) && r[2] in multiset(r) && r[3] in multiset(r);
    assert r[0] in s && r[1] in s && r[2] in s && r[3] in s;
    forall i | 0 <= i < 4
      ensures r[0] <= s[i] <= r[3]
    {
      assert s[i] in multiset(s);
      assert s[i] in r;
    }
  }

  // ---------------------------------------------------------------- the whole check

  /** The inputs OpenCV provides for a texture: its Otsu mask and blurred grey image, the
      contour areas, the order `np.argsort` gives them, and each contour's box corners. */
  datatype Contours = Contours(areas: seq<real>, order: seq<nat>, boxes: seq<seq<BoxPoint>>)

  predicate ValidContours(c: Contours) {
    LargestFirst(c.areas, c.order) && |c.boxes| == |c.areas| &&
    forall k :: 0 <= k < |c.boxes| ==> |c.boxes[k]| == 4
  }

  /** `check_paper_edges`: returns the oriented mask that contour finding runs on and the
      texture, cropped to the dominant contour's box when exactly one contour covers at
      least 65 percent of it and unchanged otherwise. */
  method CheckPaperEdges<T>(texture: seq<seq<T>>, binary: seq<seq<int>>, blur: seq<seq<int>>, c: Contours)
    returns (mask: seq<seq<int>>, result: seq<seq<T>>)
    requires Rectangular(texture) && |texture| >= 1 && Width(texture) >= 1
    requires IsGrid(binary, |texture|, Width(texture)) && IsGrid(blur, |texture|, Width(texture))
    requires ValidContours(c)
    ensures mask == OrientMask(binary, blur)
    ensures !UniqueLarge(c.areas, MinArea(|texture|, Width(texture))) ==> result == texture
    ensures UniqueLarge(c.areas, MinArea(|texture|, Width(texture))) ==>
              exists k :: 0 <= k < |c.areas| && c.areas[k] >= MinArea(|texture|, Width(texture)) &&
                var b := CropBounds(Corners(c.boxes[k]));
                result == SubGrid(texture, b.top, b.bottom, b.left, b.right)
  {
    mask := OrientMask(binary, blur);
    var chosen := SelectContour(c.areas, c.order, MinArea(|texture|, Width(texture)));
    if chosen.None? {
      result := texture;
    } else {
      var b := CropBounds(Corners(c.boxes[chosen.value]));
      result := SubGrid(texture, b.top, b.bottom, b.left, b.right);
    }
  }
}
