/** How `PaperFactory` fits a texture to the page: the two-phase `resize` of its dimensions,
    the exact-size random crop of `retrieve_texture`, and the one- or two-side crop of
    `generate_random_texture`. */
module CanvasFit {
  import opened Numeric
  import opened Grid

  // ---------------------------------------------------------------- resize

  /** `int(x)` on a non-negative real. */
  function Floor(x: real): (n: nat)
    requires x >= 0.0
    ensures n as real <= x < n as real + 1.0
  {
    x.Floor
  }

  /** The larger of the two ratios `target / current`: the branch `h_ratio > w_ratio`. */
  function Dominant(hRatio: real, wRatio: real): (d: real)
    ensures d >= hRatio && d >= wRatio && (d == hRatio || d == wRatio)
  {
    if hRatio > wRatio then hRatio else wRatio
  }

  /** The zoom-out scale `random.uniform(dominant, 1.2)`; when the dominant ratio exceeds
      1.2 the draw lies in (1.2, dominant]. */
  function ZoomOutScale(hRatio: real, wRatio: real, u: real): (s: real)
    requires 0.0 <= u < 1.0
    ensures Min2(Dominant(hRatio, wRatio), 1.2) <= s <= Max2(Dominant(hRatio, wRatio), 1.2)
  {
    Uniform(Dominant(hRatio, wRatio), 1.2, u)
  }

  /** The zoom-in scale `random.uniform(dominant, dominant + 1.5)`. */
  function ZoomInScale(hRatio: real, wRatio: real, u: real): (s: real)
    requires 0.0 <= u < 1.0
    ensures Dominant(hRatio, wRatio) <= s < Dominant(hRatio, wRatio) + 1.5
  {
    Uniform(Dominant(hRatio, wRatio), Dominant(hRatio, wRatio) + 1.5, u)
  }

  function Min2(a: real, b: real): real { if a <= b then a else b }

  function Max2(a: real, b: real): real { if a >= b then a else b }

  /** The dimensions of the resized texture, or the `ZeroDivisionError` that a texture with
      an empty side raises in `shape / texture` and `cv2.resize` refuses to avoid. */
  datatype Fit = Fit(h: nat, w: nat) | ZeroDivision

  /** A side of `n` pixels scaled by at least `target / n` covers the target. */
  lemma ScaledCovers(n: nat, target: nat, scale: real)
    requires n >= 1 && scale >= target as real / n as real && scale >= 0.0
    ensures Floor(n as real * scale) >= target
  {
    var r := target as real / n as real;
    assert r * n as real == target as real;
    assert n as real * scale >= n as real * r;
  }

  /** A side of `n` pixels scaled by more than 1 stays at least `n`. */
  lemma ScaledUp(n: nat, scale: real)
    requires scale > 1.0
    ensures Floor(n as real * scale) >= n
  {
    assert n as real * scale >= n as real;
  }

  /** `resize` (lines 408-435) on dimensions: zoom out when the texture exceeds the page on
      either axis, then zoom in when it does not exceed it on both. `uOut` and `uIn` are
      the unit draws behind the two `random.uniform` calls. Whichever branches run, the
      result covers the page. */
  method Resize(textureH: nat, textureW: nat, shapeH: nat, shapeW: nat, uOut: real, uIn: real) returns (fit: Fit)
    requires shapeH >= 1 && shapeW >= 1
    requires 0.0 <= uOut < 1.0 && 0.0 <= uIn < 1.0
    ensures fit.ZeroDivision? <==> textureH == 0 || textureW == 0
    ensures fit.Fit? ==> fit.h >= shapeH && fit.w >= shapeW
  {
    if textureH == 0 || textureW == 0 {
      return ZeroDivision;
    }
    var h, w := textureH, textureW;
    if h > shapeH || w > shapeW {
      var hRatio := shapeH as real / h as real;
      var wRatio := shapeW as real / w as real;
      var scale := ZoomOutScale(hRatio, wRatio, uOut);
      if Dominant(hRatio, wRatio) <= 1.2 {
        ScaledCovers(h, shapeH, scale);
        ScaledCovers(w, shapeW, scale);
      } else {
        ScaledUp(h, scale);
        ScaledUp(w, scale);
      }
      h, w := Floor(h as real * scale), Floor(w as real * scale);
    }
    if h <= shapeH || w <= shapeW {
      var hRatio := shapeH as real / h as real;
      var wRatio := shapeW as real / w as real;
      var scale := ZoomInScale(hRatio, wRatio, uIn);
      ScaledCovers(h, shapeH, scale);
      ScaledCovers(w, shapeW, scale);
      h, w := Floor(h as real * scale), Floor(w as real * scale);
    }
    fit := Fit(h, w);
  }

  // ---------------------------------------------------------------- retrieve_texture

  /** The texture `retrieve_texture` returns: an exact crop, or the dimensions `resize` gives
      (its resampled pixels are not modelled). */
  datatype Fitted<T> = Cropped(image: seq<seq<T>>) | Resized(fit: Fit)

  /** Lines 92-102 on the edge-checked texture. When it is strictly larger than the page on
      both axes, the crop starts at the caller-supplied `random.randint(0, difference)`
      offsets; otherwise the texture goes through `resize`. */
  method FitTexture<T>(texture: seq<seq<T>>, shapeH: nat, shapeW: nat, startY: nat, startX: nat,
                       uOut: real, uIn: real) returns (r: Fitted<T>)
    requires Rectangular(texture)
    requires shapeH >= 1 && shapeW >= 1
    requires 0.0 <= uOut < 1.0 && 0.0 <= uIn < 1.0
    requires |texture| > shapeH && Width(texture) > shapeW ==>
               startY <= |texture| - shapeH && startX <= Width(texture) - shapeW
    ensures r.Cropped? <==> |texture| > shapeH && Width(texture) > shapeW
    ensures r.Cropped? ==> IsGrid(r.image, shapeH, shapeW)
    ensures r.Cropped? ==> forall i, j :: 0 <= i < shapeH && 0 <= j < shapeW ==>
              r.image[i][j] == texture[startY + i][startX + j]
    ensures r.Resized? ==> (r.fit.ZeroDivision? <==> |texture| == 0 || Width(texture) == 0)
    ensures r.Resized? && r.fit.Fit? ==> r.fit.h >= shapeH && r.fit.w >= shapeW
  {
    if |texture| > shapeH && Width(texture) > shapeW {
      r := Cropped(SubGrid(texture, startY, startY + shapeH, startX, startX + shapeW));
    } else {
      var fit := Resize(|texture|, Width(texture), shapeH, shapeW, uOut, uIn);
      r := Resized(fit);
    }
  }

  // ---------------------------------------------------------------- side crops

  /** The part `texture[top : top + h, left : left + w]` of a texture. */
  datatype Window = Window(top: nat, left: nat, h: nat, w: nat)

  /** The whole of an `ysize` by `xsize` texture. */
  function Whole(ysize: nat, xsize: nat): Window {
    Window(0, 0, ysize, xsize)
  }

  predicate Inside<T>(g: seq<seq<T>>, c: Window) {
    Rectangular(g) && c.top + c.h <= |g| && c.left + c.w <= Width(g)
  }

  /** The pixels of `g` in window `c`. */
  function View<T>(g: seq<seq<T>>, c: Window): (r: seq<seq<T>>)
    requires Inside(g, c)
    ensures IsGrid(r, c.h, c.w)
    ensures forall i, j :: 0 <= i < c.h && 0 <= j < c.w ==> r[i][j] == g[c.top + i][c.left + j]
  {
    SubGrid(g, c.top, c.top + c.h, c.left, c.left + c.w)
  }

  /** Two images of the same shape with the same pixels are equal. */
  lemma GridsEqual<T>(a: seq<seq<T>>, b: seq<seq<T>>, h: nat, w: nat)
    requires IsGrid(a, h, w) && IsGrid(b, h, w)
    requires forall i, j :: 0 <= i < h && 0 <= j < w ==> a[i][j] == b[i][j]
    ensures a == b
  {
    forall i | 0 <= i < h
      ensures a[i] == b[i]
    {
      assert forall j :: 0 <= j < w ==> a[i][j] == b[i][j];
    }
  }

  /** numpy's row slice `[start:stop, :]` of the part in window `c`. */
  function RowSlice(c: Window, start: int, stop: int): Window {
    Window(c.top + SliceLo(start, c.h), c.left, SliceLen(start, stop, c.h), c.w)
  }

  /** numpy's column slice `[:, start:stop]` of the part in window `c`. */
  function ColSlice(c: Window, start: int, stop: int): Window {
    Window(c.top, c.left + SliceLo(start, c.w), c.h, SliceLen(start, stop, c.w))
  }

  /** Slicing the rows of a window's pixels gives the pixels of the sliced window. */
  lemma RowSliceView<T>(g: seq<seq<T>>, c: Window, start: int, stop: int)
    requires Inside(g, c)
    ensures Inside(g, RowSlice(c, start, stop))
    ensures SubGrid(View(g, c), start, stop, 0, Width(View(g, c))) == View(g, RowSlice(c, start, stop))
  {
    var v := View(g, c);
    var d := RowSlice(c, start, stop);
    var a := SubGrid(v, start, stop, 0, Width(v));
    if c.h > 0 {
      assert Width(v) == c.w;
      GridsEqual(a, View(g, d), d.h, d.w);
    }
  }

  /** Slicing the columns of a window's pixels gives the pixels of the sliced window. */
  lemma ColSliceView<T>(g: seq<seq<T>>, c: Window, start: int, stop: int)
    requires Inside(g, c)
    ensures Inside(g, ColSlice(c, start, stop))
    ensures SubGrid(View(g, c), 0, |View(g, c)|, start, stop) == View(g, ColSlice(c, start, stop))
  {
    var v := View(g, c);
    var d := ColSlice(c, start, stop);
    var a := SubGrid(v, 0, |v|, start, stop);
    if c.h > 0 {
      assert Width(v) == c.w;
      GridsEqual(a, View(g, d), d.h, d.w);
    }
  }

  /** The sides of `generate_random_texture`: 0 top, 1 bottom, 2 left, 3 right. */
  const Top: nat := 0
  const Bottom: nat := 1
  const Left: nat := 2
  const Right: nat := 3

  /** One crop on the pixels (lines 148-156, repeated at 166-176) with the amounts
      `crop_y = int(ysize / 20)` and `crop_x = int(xsize / 20)`, as evidently intended: the
      bottom and right bounds are measured from the part as it now is. */
  function CropSide<T>(g: seq<seq<T>>, side: nat, cy: nat, cx: nat): seq<seq<T>>
    requires Rectangular(g)
  {
    if side == Top then SubGrid(g, cy, |g|, 0, Width(g))
    else if side == Bottom then SubGrid(g, 0, |g| - cy, 0, Width(g))
    else if side == Left then SubGrid(g, 0, |g|, cx, Width(g))
    else SubGrid(g, 0, |g|, 0, Width(g) - cx)
  }

  /** Window `d` lies in window `c`. */
  predicate Within(d: Window, c: Window) {
    c.top <= d.top && d.top + d.h <= c.top + c.h && c.left <= d.left && d.left + d.w <= c.left + c.w
  }

  /** A crop of a top or bottom side keeps the columns; one of a left or right side keeps
      the rows. */
  predicate KeepsOtherAxis(d: Window, c: Window, side: nat) {
    (side <= Bottom ==> d.left == c.left && d.w == c.w) && (side >= Left ==> d.top == c.top && d.h == c.h)
  }

  /** The same crop on windows; the amounts stay those of the original size. The part
      shrinks by exactly the amount when the amount fits. */
  function IntendedCropSide(c: Window, side: nat, cy: nat, cx: nat): (d: Window)
    ensures Within(d, c) && KeepsOtherAxis(d, c, side)
    ensures side <= Bottom && cy <= c.h ==> d.h == c.h - cy
    ensures side >= Left && cx <= c.w ==> d.w == c.w - cx
  {
    if side == Top then RowSlice(c, cy, c.h)
    else if side == Bottom then RowSlice(c, 0, c.h - cy)
    else if side == Left then ColSlice(c, cx, c.w)
    else ColSlice(c, 0, c.w - cx)
  }

  /** The intended crops in order, on windows. */
  function IntendedCrops(c: Window, sides: seq<nat>, cy: nat, cx: nat): (d: Window)
    ensures Within(d, c)
    decreases |sides|
  {
    if |sides| == 0 then c
    else IntendedCrops(IntendedCropSide(c, sides[0], cy, cx), sides[1..], cy, cx)
  }

  /** The crop as written, on windows: the bottom and right bounds `ysize - crop_y` and
      `xsize - crop_x` are measured from the original size, not from the current part. */
  function CropSideAsWritten(c: Window, side: nat, cy: nat, cx: nat, ysize: nat, xsize: nat): (d: Window)
    ensures Within(d, c) && KeepsOtherAxis(d, c, side)
  {
    if side == Top then RowSlice(c, cy, c.h)
    else if side == Bottom then RowSlice(c, 0, ysize - cy)
    else if side == Left then ColSlice(c, cx, c.w)
    else ColSlice(c, 0, xsize - cx)
  }

  /** The crops in order, on windows, as written. */
  function CropsAsWritten(c: Window, sides: seq<nat>, cy: nat, cx: nat, ysize: nat, xsize: nat): (d: Window)
    ensures Within(d, c)
    decreases |sides|
  {
    if |sides| == 0 then c
    else CropsAsWritten(CropSideAsWritten(c, sides[0], cy, cx, ysize, xsize), sides[1..], cy, cx, ysize, xsize)
  }

  /** Cropping a window's pixels gives the pixels of the cropped window. */
  lemma CropSideView<T>(g: seq<seq<T>>, c: Window, side: nat, cy: nat, cx: nat)
    requires Inside(g, c) && c.h >= 1
    ensures Inside(g, IntendedCropSide(c, side, cy, cx))
    ensures CropSide(View(g, c), side, cy, cx) == View(g, IntendedCropSide(c, side, cy, cx))
  {
    if side <= Bottom {
      RowCropView(g, c, side, cy, cx);
    } else {
      ColCropView(g, c, side, cy, cx);
    }
  }

  lemma RowCropView<T>(g: seq<seq<T>>, c: Window, side: nat, cy: nat, cx: nat)
    requires Inside(g, c) && c.h >= 1 && side <= Bottom
    ensures Inside(g, IntendedCropSide(c, side, cy, cx))
    ensures CropSide(View(g, c), side, cy, cx) == View(g, IntendedCropSide(c, side, cy, cx))
  {
    var v := View(g, c);
    assert |v| == c.h && Width(v) == c.w;
    var start, stop := if side == Top then cy else 0, if side == Top then c.h else c.h - cy;
    RowSliceView(g, c, start, stop);
    calc {
      CropSide(v, side, cy, cx);
      SubGrid(v, start, stop, 0, c.w);
      View(g, RowSlice(c, start, stop));
      View(g, IntendedCropSide(c, side, cy, cx));
    }
  }

  lemma ColCropView<T>(g: seq<seq<T>>, c: Window, side: nat, cy: nat, cx: nat)
    requires Inside(g, c) && c.h >= 1 && side >= Left
    ensures Inside(g, IntendedCropSide(c, side, cy, cx))
    ensures CropSide(View(g, c), side, cy, cx) == View(g, IntendedCropSide(c, side, cy, cx))
  {
    var v := View(g, c);
    assert |v| == c.h && Width(v) == c.w;
    var start, stop := if side == Left then cx else 0, if side == Left then c.w else c.w - cx;
    ColSliceView(g, c, start, stop);
    calc {
      CropSide(v, side, cy, cx);
      SubGrid(v, 0, c.h, start, stop);
      View(g, ColSlice(c, start, stop));
      View(g, IntendedCropSide(c, side, cy, cx));
    }
  }

  /** `list.index(value)`: the position of the first occurrence. */
  function FirstIndex(s: seq<nat>, v: nat): (i: nat)
    requires v in s
    ensures i < |s| && s[i] == v && v !in s[..i]
  {
    if s[0] == v then 0
    else
      assert v in s[1..];
      var j := FirstIndex(s[1..], v);
      assert s[..j+1] == [s[0]] + s[1..][..j];
      j + 1
  }

  /** `selections.remove(value)`: drops the first occurrence and keeps the rest in order. */
  function Remove(s: seq<nat>, v: nat): (r: seq<nat>)
    requires v in s
    ensures |r| == |s| - 1
    ensures exists i :: 0 <= i < |s| && s[i] == v && v !in s[..i] && r == s[..i] + s[i+1..]
    ensures forall x :: x != v ==> (x in r <==> x in s)
    ensures (forall i, j :: 0 <= i < j < |s| ==> s[i] != s[j]) ==> v !in r
  {
    var i := FirstIndex(s, v);
    SpliceFacts(s, v, i, s[..i] + s[i+1..]);
    s[..i] + s[i+1..]
  }

  /** A list with the element at `i`, the first occurrence of `v`, cut out. */
  lemma SpliceFacts(s: seq<nat>, v: nat, i: nat, r: seq<nat>)
    requires i < |s| && s[i] == v && v !in s[..i] && r == s[..i] + s[i+1..]
    ensures |r| == |s| - 1
    ensures exists i :: 0 <= i < |s| && s[i] == v && v !in s[..i] && r == s[..i] + s[i+1..]
    ensures forall x :: x != v ==> (x in r <==> x in s)
    ensures (forall i, j :: 0 <= i < j < |s| ==> s[i] != s[j]) ==> v !in r
  {
    assert s == s[..i] + [v] + s[i+1..];
    if forall a, b :: 0 <= a < b < |s| ==> s[a] != s[b] {
      forall k | 0 <= k < |r| ensures r[k] != v {
        if k < i { assert r[k] == s[k]; } else { assert r[k] == s[k+1]; }
      }
    }
  }

  /** The crops of lines 143-176 on an `ysize` by `xsize` texture, with the bottom and right
      crops measured from the current part (see `CropSideAsWritten` for the code as
      written). `once` and `twice` are the two `random.randint(0, 1)` coin draws, `pick1`
      and `pick2` the indices the two `random.choice` calls draw from the list they are
      given. Returns the cropped texture and the sides cropped, in order: the second side
      differs from the first, and the result is the texture's part in the window the crops
      leave. */
  method RandomSideCrops<T>(texture: seq<seq<T>>, ysize: nat, xsize: nat, once: nat, pick1: nat,
                            twice: nat, pick2: nat) returns (out: seq<seq<T>>, sides: seq<nat>)
    requires IsGrid(texture, ysize, xsize) && ysize >= 1
    requires once <= 1 && twice <= 1 && pick1 < 4 && pick2 < 3
    ensures |sides| == if once == 0 then 0 else if twice == 0 then 1 else 2
    ensures |sides| >= 1 ==> sides[0] == pick1
    ensures |sides| == 2 ==> sides[1] != sides[0] && sides[1] < 4
    ensures |sides| == 2 ==> sides[1] == Remove([0, 1, 2, 3], pick1)[pick2]
    ensures var c := IntendedCrops(Whole(ysize, xsize), sides, ysize / 20, xsize / 20);
            Inside(texture, c) && out == View(texture, c)
  {
    var cropX, cropY := xsize / 20, ysize / 20;
    GridsEqual(texture, View(texture, Whole(ysize, xsize)), ysize, xsize);
    out, sides := texture, [];
    if once != 0 {
      var selections: seq<nat> := [0, 1, 2, 3];
      var selection1 := selections[pick1];
      Selections(pick1, pick2);
      FirstCropStep(texture, selection1, cropY, cropX, ysize, xsize);
      out := CropSide(out, selection1, cropY, cropX);
      sides := [selection1];
      if twice != 0 {
        selections := Remove(selections, selection1);
        var selection2 := selections[pick2];
        SecondCropStep(texture, selection1, selection2, cropY, cropX, ysize, xsize);
        out := CropSide(out, selection2, cropY, cropX);
        sides := [selection1, selection2];
      }
    }
  }

  /** The second crop continues from the part the first one left. */
  lemma SecondCropStep<T>(texture: seq<seq<T>>, s1: nat, s2: nat, cy: nat, cx: nat, ysize: nat, xsize: nat)
    requires IsGrid(texture, ysize, xsize) && ysize >= 1 && cy == ysize / 20 && cx == xsize / 20
    ensures var c1 := IntendedCropSide(Whole(ysize, xsize), s1, cy, cx);
            var c2 := IntendedCropSide(c1, s2, cy, cx);
            Inside(texture, c1) && Inside(texture, c2) &&
            CropSide(View(texture, c1), s2, cy, cx) == View(texture, c2) &&
            IntendedCrops(Whole(ysize, xsize), [s1, s2], cy, cx) == c2
  {
    FirstCropStep(texture, s1, cy, cx, ysize, xsize);
    var c1 := IntendedCropSide(Whole(ysize, xsize), s1, cy, cx);
    CropSideView(texture, c1, s2, cy, cx);
    TwoCropsIntended(Whole(ysize, xsize), s1, s2, cy, cx);
  }

  /** The list `[0, 1, 2, 3]` before and after `remove`: the first choice is the index
      drawn, and the second is one of the three other sides. */
  lemma Selections(pick1: nat, pick2: nat)
    requires pick1 < 4 && pick2 < 3
    ensures [0, 1, 2, 3][pick1] == pick1
    ensures var rest := Remove([0, 1, 2, 3], pick1);
            |rest| == 3 && rest[pick2] != pick1 && rest[pick2] < 4
  {
    var s: seq<nat> := [0, 1, 2, 3];
    assert forall i, j :: 0 <= i < j < |s| ==> s[i] != s[j];
    var rest := Remove(s, pick1);
    assert rest[pick2] in rest;
  }

  /** The first crop of the whole texture leaves a non-empty part and its pixels. */
  lemma FirstCropStep<T>(texture: seq<seq<T>>, side: nat, cy: nat, cx: nat, ysize: nat, xsize: nat)
    requires IsGrid(texture, ysize, xsize) && ysize >= 1 && cy == ysize / 20 && cx == xsize / 20
    ensures var c := IntendedCropSide(Whole(ysize, xsize), side, cy, cx);
            Inside(texture, c) && c.h >= 1 &&
            CropSide(texture, side, cy, cx) == View(texture, c) &&
            IntendedCrops(Whole(ysize, xsize), [side], cy, cx) == c
  {
    var w := Whole(ysize, xsize);
    GridsEqual(texture, View(texture, w), ysize, xsize);
    CropAmounts(ysize);
    CropSideView(texture, w, side, cy, cx);
    OneCropIntended(w, side, cy, cx);
    RowSliceClosed(w, cy, ysize);
    RowSliceClosed(w, 0, ysize - cy);
  }

  lemma OneCropIntended(c: Window, s1: nat, cy: nat, cx: nat)
    ensures IntendedCrops(c, [s1], cy, cx) == IntendedCropSide(c, s1, cy, cx)
  {
    assert [s1][1..] == [];
  }

  /** Each crop amount is at most a twentieth of its side, so two of them leave most of it. */
  lemma CropAmounts(n: nat)
    ensures 20 * (n / 20) <= n
    ensures n >= 1 ==> n - 2 * (n / 20) >= 1
  {
  }

  /** Two crops as written are the second applied to the result of the first. */
  lemma TwoCropsAsWritten(c: Window, s1: nat, s2: nat, cy: nat, cx: nat, ysize: nat, xsize: nat)
    ensures CropsAsWritten(c, [s1, s2], cy, cx, ysize, xsize)
         == CropSideAsWritten(CropSideAsWritten(c, s1, cy, cx, ysize, xsize), s2, cy, cx, ysize, xsize)
  {
    var d := CropSideAsWritten(c, s1, cy, cx, ysize, xsize);
    assert [s1, s2][1..] == [s2] && [s2][1..] == [];
    assert CropsAsWritten(c, [s1, s2], cy, cx, ysize, xsize) == CropsAsWritten(d, [s2], cy, cx, ysize, xsize);
  }

  /** Two intended crops are the second applied to the result of the first. */
  lemma TwoCropsIntended(c: Window, s1: nat, s2: nat, cy: nat, cx: nat)
    ensures IntendedCrops(c, [s1, s2], cy, cx) == IntendedCropSide(IntendedCropSide(c, s1, cy, cx), s2, cy, cx)
  {
    var d := IntendedCropSide(c, s1, cy, cx);
    assert [s1, s2][1..] == [s2] && [s2][1..] == [];
    assert IntendedCrops(c, [s1, s2], cy, cx) == IntendedCrops(d, [s2], cy, cx);
  }

  /** A row slice with a start inside the part and a stop beyond the start. */
  lemma RowSliceClosed(c: Window, start: int, stop: int)
    requires 0 <= start <= c.h && start <= stop
    ensures RowSlice(c, start, stop) == Window(c.top + start, c.left, Min(stop, c.h) - start, c.w)
  {
  }

  /** A column slice with a start inside the part and a stop beyond the start. */
  lemma ColSliceClosed(c: Window, start: int, stop: int)
    requires 0 <= start <= c.w && start <= stop
    ensures ColSlice(c, start, stop) == Window(c.top, c.left + start, c.h, Min(stop, c.w) - start)
  {
  }

  /** The first crop of the whole texture, as written and as intended alike. */
  lemma FirstCrop(ysize: nat, xsize: nat, cy: nat, cx: nat, side: nat)
    requires 2 * cy <= ysize && 2 * cx <= xsize && side < 4
    ensures CropSideAsWritten(Whole(ysize, xsize), side, cy, cx, ysize, xsize)
         == IntendedCropSide(Whole(ysize, xsize), side, cy, cx)
         == Window(if side == Top then cy else 0, if side == Left then cx else 0,
                   if side <= Bottom then ysize - cy else ysize, if side >= Left then xsize - cx else xsize)
  {
    var c := Whole(ysize, xsize);
    if side == Top {
      RowSliceClosed(c, cy, ysize);
    } else if side == Bottom {
      RowSliceClosed(c, 0, ysize - cy);
    } else if side == Left {
      ColSliceClosed(c, cx, xsize);
    } else {
      ColSliceClosed(c, 0, xsize - cx);
    }
  }

  /** As written, the crops keep a part of the texture that has lost at most two crop
      amounts on each axis. */
  lemma AsWrittenBounds(ysize: nat, xsize: nat, cy: nat, cx: nat, s1: nat, s2: nat)
    requires 2 * cy <= ysize && 2 * cx <= xsize
    requires s1 < 4 && s2 < 4 && s1 != s2
    ensures var c := CropsAsWritten(Whole(ysize, xsize), [s1, s2], cy, cx, ysize, xsize);
            c.top + c.h <= ysize && c.left + c.w <= xsize &&
            c.h >= ysize - 2 * cy && c.w >= xsize - 2 * cx
  {
    TwoCropsAsWritten(Whole(ysize, xsize), s1, s2, cy, cx, ysize, xsize);
    FirstCrop(ysize, xsize, cy, cx, s1);
    var c := CropSideAsWritten(Whole(ysize, xsize), s1, cy, cx, ysize, xsize);
    SecondCropAsWritten(c, ysize, xsize, cy, cx, s2);
  }

  lemma SecondCropAsWritten(c: Window, ysize: nat, xsize: nat, cy: nat, cx: nat, side: nat)
    requires 2 * cy <= ysize && 2 * cx <= xsize && side < 4
    requires c.top + c.h <= ysize && c.left + c.w <= xsize
    requires c.h >= ysize - cy && c.w >= xsize - cx
    ensures var d := CropSideAsWritten(c, side, cy, cx, ysize, xsize);
            d.top + d.h <= ysize && d.left + d.w <= xsize &&
            d.h >= ysize - 2 * cy && d.w >= xsize - 2 * cx
  {
    if side == Top {
      RowSliceClosed(c, cy, c.h);
    } else if side == Bottom {
      RowSliceClosed(c, 0, ysize - cy);
    } else if side == Left {
      ColSliceClosed(c, cx, c.w);
    } else {
      ColSliceClosed(c, 0, xsize - cx);
    }
  }

  /** Intended, two different sides each lose exactly their crop amount. */
  lemma IntendedTwoSides(ysize: nat, xsize: nat, cy: nat, cx: nat, s1: nat, s2: nat)
    requires 2 * cy <= ysize && 2 * cx <= xsize
    requires s1 < 4 && s2 < 4 && s1 != s2
    ensures IntendedCrops(Whole(ysize, xsize), [s1, s2], cy, cx)
         == Window(if Top in [s1, s2] then cy else 0, if Left in [s1, s2] then cx else 0,
                   ysize - Lost(s1 <= Bottom, s2 <= Bottom, cy), xsize - Lost(s1 >= Left, s2 >= Left, cx))
  {
    TwoCropsIntended(Whole(ysize, xsize), s1, s2, cy, cx);
    FirstCrop(ysize, xsize, cy, cx, s1);
    var c := IntendedCropSide(Whole(ysize, xsize), s1, cy, cx);
    if s2 == Top {
      RowSliceClosed(c, cy, c.h);
    } else if s2 == Bottom {
      RowSliceClosed(c, 0, c.h - cy);
    } else if s2 == Left {
      ColSliceClosed(c, cx, c.w);
    } else {
      ColSliceClosed(c, 0, c.w - cx);
    }
  }

  /** `amount` for each of two conditions that holds. */
  function Lost(a: bool, b: bool, amount: nat): nat {
    (if a then amount else 0) + (if b then amount else 0)
  }

  /** The two differ only when the top is cropped before the bottom or the left before the
      right; in every other order the crops are as intended. */
  lemma AsWrittenDiffersOnlyWhenOppositeAfterNear(ysize: nat, xsize: nat, cy: nat, cx: nat, s1: nat, s2: nat)
    requires 2 * cy <= ysize && 2 * cx <= xsize
    requires s1 < 4 && s2 < 4 && s1 != s2
    requires !(s1 == Top && s2 == Bottom) && !(s1 == Left && s2 == Right)
    ensures CropsAsWritten(Whole(ysize, xsize), [s1, s2], cy, cx, ysize, xsize)
         == IntendedCrops(Whole(ysize, xsize), [s1, s2], cy, cx)
  {
    TwoCropsAsWritten(Whole(ysize, xsize), s1, s2, cy, cx, ysize, xsize);
    TwoCropsIntended(Whole(ysize, xsize), s1, s2, cy, cx);
    FirstCrop(ysize, xsize, cy, cx, s1);
    var c := IntendedCropSide(Whole(ysize, xsize), s1, cy, cx);
    if s2 == Top {
      RowSliceClosed(c, cy, c.h);
    } else if s2 == Bottom {
      assert c.h == ysize;
      RowSliceClosed(c, 0, c.h - cy);
    } else if s2 == Left {
      ColSliceClosed(c, cx, c.w);
    } else {
      assert c.w == xsize;
      ColSliceClosed(c, 0, c.w - cx);
    }
  }

  /** Cropping the top and then the bottom, as written, removes only the top `crop_y` rows:
      the bottom bound `ysize - crop_y` equals the number of rows that remain. Intended, the
      bottom crop removes `crop_y` more. */
  lemma TopThenBottomCropsOnce(ysize: nat, xsize: nat, cy: nat, cx: nat)
    requires 2 * cy <= ysize
    ensures CropsAsWritten(Whole(ysize, xsize), [Top, Bottom], cy, cx, ysize, xsize) == Window(cy, 0, ysize - cy, xsize)
    ensures IntendedCrops(Whole(ysize, xsize), [Top, Bottom], cy, cx) == Window(cy, 0, ysize - 2 * cy, xsize)
  {
    var w := Whole(ysize, xsize);
    TwoCropsAsWritten(w, Top, Bottom, cy, cx, ysize, xsize);
    TwoCropsIntended(w, Top, Bottom, cy, cx);
    RowSliceClosed(w, cy, ysize);
    var c := Window(cy, 0, ysize - cy, xsize);
    assert CropSideAsWritten(w, Top, cy, cx, ysize, xsize) == c;
    assert IntendedCropSide(w, Top, cy, cx) == c;
    RowSliceClosed(c, 0, ysize - cy);
    RowSliceClosed(c, 0, ysize - 2 * cy);
  }

  /** The same for the left and then the right side. */
  lemma LeftThenRightCropsOnce(ysize: nat, xsize: nat, cy: nat, cx: nat)
    requires 2 * cx <= xsize
    ensures CropsAsWritten(Whole(ysize, xsize), [Left, Right], cy, cx, ysize, xsize) == Window(0, cx, ysize, xsize - cx)
    ensures IntendedCrops(Whole(ysize, xsize), [Left, Right], cy, cx) == Window(0, cx, ysize, xsize - 2 * cx)
  {
    var w := Whole(ysize, xsize);
    TwoCropsAsWritten(w, Left, Right, cy, cx, ysize, xsize);
    TwoCropsIntended(w, Left, Right, cy, cx);
    ColSliceClosed(w, cx, xsize);
    var c := Window(0, cx, ysize, xsize - cx);
    assert CropSideAsWritten(w, Left, cy, cx, ysize, xsize) == c;
    assert IntendedCropSide(w, Left, cy, cx) == c;
    ColSliceClosed(c, 0, xsize - cx);
    ColSliceClosed(c, 0, xsize - 2 * cx);
  }

  /** A 100 by 100 texture cropped at the top and then the bottom keeps 95 rows as written
      and 90 as intended. */
  lemma HundredSquareTopThenBottom()
    ensures CropsAsWritten(Whole(100, 100), [Top, Bottom], 5, 5, 100, 100) == Window(5, 0, 95, 100)
    ensures IntendedCrops(Whole(100, 100), [Top, Bottom], 5, 5) == Window(5, 0, 90, 100)
  {
    TopThenBottomCropsOnce(100, 100, 5, 5);
  }
}
