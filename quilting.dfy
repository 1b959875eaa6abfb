/** Patch quilting (`TextureGenerator.quilt_texture` and `get_random_patch`): the canvas
    geometry, the reference and donor patch searches over caller-supplied draws, and the
    painting of donor patches onto the canvas in row-major order. */
module Quilting {
  import opened Numeric
  import opened Grid

  /** Number of random locations each patch search samples. */
  const MaxDraws: nat := 10

  /** Half-width of the hue, saturation and value windows around the reference means. */
  const WindowOffset: real := 10.0

  // ----- Canvas geometry -----

  /** Overlap between neighbouring patches: `patch_size // 5`, a fifth of the patch rounded down. */
  function Overlap(ps: nat): (o: nat)
    ensures 5 * o <= ps < 5 * o + 5
  {
    ps / 5
  }

  /** Distance between the origins of neighbouring patches. */
  function Stride(ps: nat): (d: nat)
    ensures d <= ps
    ensures ps >= 1 ==> d >= 1
  {
    ps - Overlap(ps)
  }

  /** Canvas length along one axis for `n` patches of size `ps`. */
  function CanvasLength(n: nat, ps: nat): (len: nat)
    ensures n == 0 ==> len == Overlap(ps)
  {
    assert (n - 1) * Overlap(ps) <= n * ps by {
      if n >= 1 {
        MulMonotone(Overlap(ps), ps, n - 1);
        assert n * ps == (n - 1) * ps + ps;
      }
    }
    n * ps - (n - 1) * Overlap(ps)
  }

  /** With at least one patch the canvas is at least one patch long and at most the patches
      laid end to end without overlap. */
  lemma CanvasLengthBounds(n: nat, ps: nat)
    requires n >= 1
    ensures ps <= CanvasLength(n, ps) <= n * ps
  {
    MulMonotone(Overlap(ps), ps, n - 1);
    assert n * ps == (n - 1) * ps + ps;
  }

  /** Patch number `t` along an axis starts at `t * Stride(ps)`. */
  function Origin(t: nat, ps: nat): (o: nat)
    ensures t == 0 ==> o == 0
    ensures ps >= 1 ==> t <= o
  {
    if ps >= 1 then
      MulMonotone(1, Stride(ps), t);
      t * Stride(ps)
    else
      t * Stride(ps)
  }

  /** Neighbouring patches start one stride apart. */
  lemma OriginStep(t: nat, ps: nat)
    ensures Origin(t + 1, ps) == Origin(t, ps) + Stride(ps)
  {
    assert (t + 1) * Stride(ps) == t * Stride(ps) + Stride(ps);
  }

  /** Patch number `t` along an axis covers coordinate `r`. */
  predicate Covers(t: nat, ps: nat, r: int) {
    Origin(t, ps) <= r < Origin(t, ps) + ps
  }

  /** The largest patch number below `n` that covers `r`, if any. */
  function LastCover(n: nat, ps: nat, r: int): (o: Option<nat>)
    ensures o.Some? ==> o.value < n && Covers(o.value, ps, r)
    ensures o.Some? ==> forall t :: o.value < t < n ==> !Covers(t, ps, r)
    ensures o.None? ==> forall t :: 0 <= t < n ==> !Covers(t, ps, r)
  {
    if n == 0 then None
    else if Covers(n - 1, ps, r) then Some(n - 1)
    else LastCover(n - 1, ps, r)
  }

  /** The last of `n >= 1` patches ends exactly at the edge of the canvas. */
  lemma LastPatchEndsAtEdge(n: nat, ps: nat)
    requires n >= 1
    ensures Origin(n - 1, ps) + ps == CanvasLength(n, ps)
  {
    calc {
      CanvasLength(n, ps);
      (n - 1) * ps + ps - (n - 1) * Overlap(ps);
      { assert (n - 1) * ps - (n - 1) * Overlap(ps) == (n - 1) * (ps - Overlap(ps)); }
      (n - 1) * Stride(ps) + ps;
    }
  }

  /** Every patch lies fully inside the canvas. */
  lemma PatchInsideCanvas(n: nat, ps: nat, t: nat)
    requires t < n
    ensures Origin(t, ps) + ps <= CanvasLength(n, ps)
  {
    LastPatchEndsAtEdge(n, ps);
    MulMonotone(t, n - 1, Stride(ps));
  }

  /** With at least one patch per axis, every canvas coordinate is covered by some patch. */
  lemma EveryCellCovered(n: nat, ps: nat, r: int)
    requires n >= 1 && ps >= 1
    requires 0 <= r < CanvasLength(n, ps)
    ensures LastCover(n, ps, r).Some?
  {
    LastPatchEndsAtEdge(n, ps);
    var t := CoveredBelow(n, ps, r);
  }

  /** A coordinate before the end of patch `n - 1` is covered by one of the first `n`
      patches: each patch starts no later than its predecessor ends. */
  lemma {:induction false} CoveredBelow(n: nat, ps: nat, r: int) returns (t: nat)
    requires n >= 1 && ps >= 1
    requires 0 <= r < Origin(n - 1, ps) + ps
    ensures t < n && Covers(t, ps, r)
  {
    if n == 1 || r >= Origin(n - 1, ps) {
      t := n - 1;
    } else {
      OriginStep(n - 2, ps);
      t := CoveredBelow(n - 1, ps, r);
    }
  }

  /** The patch a canvas cell ends up showing is the last patch in row-major order that
      covers it: every other covering patch precedes it. */
  lemma RowMajorLast(nh: nat, nw: nat, ps: nat, r: int, c: int, i: nat, j: nat)
    requires LastCover(nh, ps, r).Some? && LastCover(nw, ps, c).Some?
    requires i < nh && j < nw && Covers(i, ps, r) && Covers(j, ps, c)
    ensures i * nw + j <= LastCover(nh, ps, r).value * nw + LastCover(nw, ps, c).value
  {
    var ti, tj := LastCover(nh, ps, r).value, LastCover(nw, ps, c).value;
    assert i <= ti && j <= tj;
    MulMonotone(i, ti, nw);
  }

  lemma MulMonotone(a: nat, b: nat, k: nat)
    requires a <= b
    ensures a * k <= b * k
  {
    assert b * k == a * k + (b - a) * k;
  }

  /** The canvas for 3 by 3 patches of size 20 is 52 by 52, with an overlap of 4. */
  lemma NineTwentyPatchCanvas()
    ensures Overlap(20) == 4 && CanvasLength(3, 20) == 52
  {
  }

  // ----- Patch statistics and the search windows -----

  /** The hue, saturation and value planes of the texture in HSV space. */
  datatype HsvImage = HsvImage(hue: seq<seq<int>>, sat: seq<seq<int>>, val: seq<seq<int>>)

  /** A patch origin: row `y`, column `x`. */
  datatype Pos = Pos(y: nat, x: nat)

  /** The half-open window [lo, hi). */
  datatype Window = Window(lo: real, hi: real)

  predicate InWindow(m: real, w: Window) {
    w.lo <= m < w.hi
  }

  datatype Windows = Windows(hue: Window, sat: Window, val: Window)

  /** The texture being quilted, its HSV planes and the patch size. */
  datatype Source<T> = Source(texture: seq<seq<T>>, hsv: HsvImage, patchSize: nat)

  /** A rectangular texture with HSV planes of its shape and a non-empty patch size (the
      caller's `int(texture_width / patch_size)` has already rejected a size of 0). */
  predicate WellFormedSource<T>(src: Source<T>) {
    var h, w := |src.texture|, Width(src.texture);
    && src.patchSize >= 1
    && Rectangular(src.texture)
    && IsGrid(src.hsv.hue, h, w) && IsGrid(src.hsv.sat, h, w) && IsGrid(src.hsv.val, h, w)
  }

  /** `np.random.randint(ysize - patch_size)` and its column twin have a non-empty range:
      the texture is strictly larger than a patch in both axes. */
  predicate DrawsPossible<T>(src: Source<T>) {
    |src.texture| > src.patchSize && Width(src.texture) > src.patchSize
  }

  /** A source on which the patch searches can draw. */
  predicate ValidSource<T>(src: Source<T>) {
    WellFormedSource(src) && DrawsPossible(src)
  }

  /** A location drawn by `np.random.randint(ysize - patch_size)` and its column twin. */
  predicate DrawOk<T>(src: Source<T>, p: Pos) {
    p.y < |src.texture| - src.patchSize && p.x < Width(src.texture) - src.patchSize
  }

  predicate DrawsOk<T>(src: Source<T>, tries: seq<Pos>) {
    |tries| == MaxDraws && forall k :: 0 <= k < |tries| ==> DrawOk(src, tries[k])
  }

  /** Mean of one HSV plane over the patch at `p`. */
  function PatchMean<T>(src: Source<T>, plane: seq<seq<int>>, p: Pos): real
    requires ValidSource(src) && DrawOk(src, p)
    requires plane == src.hsv.hue || plane == src.hsv.sat || plane == src.hsv.val
  {
    BlockMean(plane, p.y, p.x, src.patchSize, src.patchSize)
  }

  /** The reference-patch test: mean value strictly between 10 and 245. */
  predicate Bright<T>(src: Source<T>, p: Pos)
    requires ValidSource(src) && DrawOk(src, p)
  {
    10.0 < PatchMean(src, src.hsv.val, p) < 245.0
  }

  /** The donor test: all three means inside their half-open windows. */
  predicate Acceptable<T>(src: Source<T>, win: Windows, p: Pos)
    requires ValidSource(src) && DrawOk(src, p)
  {
    && InWindow(PatchMean(src, src.hsv.hue, p), win.hue)
    && InWindow(PatchMean(src, src.hsv.sat, p), win.sat)
    && InWindow(PatchMean(src, src.hsv.val, p), win.val)
  }

  /** The windows of width 20 centred on the means of the patch at `p`. */
  function WindowsAround<T>(src: Source<T>, p: Pos): Windows
    requires ValidSource(src) && DrawOk(src, p)
  {
    var h, s, v := PatchMean(src, src.hsv.hue, p), PatchMean(src, src.hsv.sat, p), PatchMean(src, src.hsv.val, p);
    Windows(Window(h - WindowOffset, h + WindowOffset),
            Window(s - WindowOffset, s + WindowOffset),
            Window(v - WindowOffset, v + WindowOffset))
  }

  /** The reference patch passes the donor test under its own windows. */
  lemma ReferenceAcceptsItself<T>(src: Source<T>, p: Pos)
    requires ValidSource(src) && DrawOk(src, p)
    ensures Acceptable(src, WindowsAround(src, p), p)
    ensures WindowsAround(src, p).val.hi - WindowsAround(src, p).val.lo == 2.0 * WindowOffset
  {
  }

  /** Index of the first element of `s` that passes `ok`, or `|s|` if none does. */
  function FirstWhere<X>(s: seq<X>, ok: X -> bool): (k: nat)
    ensures k <= |s|
    ensures k < |s| ==> ok(s[k])
    ensures forall j :: 0 <= j < k ==> !ok(s[j])
  {
    if |s| == 0 then 0
    else if ok(s[0]) then 0
    else 1 + FirstWhere(s[1..], ok)
  }

  /** The reference test as a total predicate on locations. */
  function BrightTest<T>(src: Source<T>): Pos -> bool
    requires ValidSource(src)
  {
    p => DrawOk(src, p) && Bright(src, p)
  }

  /** The donor test as a total predicate on locations. */
  function AcceptTest<T>(src: Source<T>, win: Windows): Pos -> bool
    requires ValidSource(src)
  {
    p => DrawOk(src, p) && Acceptable(src, win, p)
  }

  /** The reference location: the first bright draw, else the last draw. */
  function ReferencePos<T>(src: Source<T>, tries: seq<Pos>): Pos
    requires ValidSource(src) && DrawsOk(src, tries)
  {
    tries[Min(FirstWhere(tries, BrightTest(src)), MaxDraws - 1)]
  }

  /** Searches for the reference patch (lines 566-584). The loop keeps the last location it
      drew, so when no draw is bright the windows come from the tenth draw. */
  method ReferenceWindows<T>(src: Source<T>, tries: seq<Pos>) returns (p: Pos, win: Windows)
    requires ValidSource(src) && DrawsOk(src, tries)
    ensures p == ReferencePos(src, tries)
    ensures DrawOk(src, p) && win == WindowsAround(src, p)
    ensures Bright(src, p) || forall k :: 0 <= k < |tries| ==> !Bright(src, tries[k])
  {
    var n := 0;
    p := tries[0];
    while n < MaxDraws
      invariant 0 <= n <= MaxDraws
      invariant forall j :: 0 <= j < n ==> !BrightTest(src)(tries[j])
      invariant n > 0 ==> p == tries[n - 1]
    {
      p := tries[n];
      if Bright(src, p) {
        break;
      }
      n := n + 1;
    }
    var k := FirstWhere(tries, BrightTest(src));
    if n < MaxDraws {
      assert BrightTest(src)(tries[n]);
      assert k == n;
    } else {
      assert k == MaxDraws;
    }
    win := WindowsAround(src, p);
  }

  // ----- Donor-patch search -----

  /** The draws of one `get_random_patch` call: the location sampled before the loop and
      the ten sampled inside it. */
  datatype DonorDraws = DonorDraws(first: Pos, tries: seq<Pos>)

  predicate DonorDrawsOk<T>(src: Source<T>, d: DonorDraws) {
    DrawOk(src, d.first) && DrawsOk(src, d.tries)
  }

  /** The chosen donor location and whether it passed the window test. */
  datatype Donor = Donor(pos: Pos, accepted: bool)

  /** The donor `get_random_patch` returns: the first acceptable draw, else the location
      sampled before the loop. */
  function DonorChoice<T>(src: Source<T>, win: Windows, d: DonorDraws): (r: Donor)
    requires ValidSource(src) && DonorDrawsOk(src, d)
    ensures DrawOk(src, r.pos)
  {
    var k := FirstWhere(d.tries, AcceptTest(src, win));
    if k < |d.tries| then Donor(d.tries[k], true) else Donor(d.first, false)
  }

  /** The retry loop of `get_random_patch` (lines 637-673), without the gamma correction
      of an accepted patch. */
  method GetRandomPatch<T>(src: Source<T>, win: Windows, d: DonorDraws) returns (r: Donor)
    requires ValidSource(src) && DonorDrawsOk(src, d)
    ensures r == DonorChoice(src, win, d)
    ensures r.accepted ==> exists k :: 0 <= k < |d.tries| && r.pos == d.tries[k] && Acceptable(src, win, r.pos)
                                  && forall j :: 0 <= j < k ==> !Acceptable(src, win, d.tries[j])
    ensures !r.accepted ==> r.pos == d.first && forall k :: 0 <= k < |d.tries| ==> !Acceptable(src, win, d.tries[k])
  {
    var n := 0;
    r := Donor(d.first, false);
    while n < MaxDraws
      invariant 0 <= n <= MaxDraws
      invariant forall j :: 0 <= j < n ==> !AcceptTest(src, win)(d.tries[j])
      invariant r == Donor(d.first, false)
    {
      var p := d.tries[n];
      if Acceptable(src, win, p) {
        r := Donor(p, true);
        break;
      }
      n := n + 1;
    }
    var k := FirstWhere(d.tries, AcceptTest(src, win));
    if r.accepted {
      assert AcceptTest(src, win)(d.tries[n]);
      assert k == n;
    } else {
      assert k == |d.tries|;
    }
  }

  // ----- Painting -----

  /** Copies the `ps` by `ps` patch of `texture` at `from` into `canvas` at row `y0`,
      column `x0` (numpy's `image_quilt[y:y+ps, x:x+ps] = image_patch`). */
  method PaintPatch<T>(canvas: array2<T>, texture: seq<seq<T>>, from: Pos, y0: nat, x0: nat, ps: nat)
    requires y0 + ps <= canvas.Length0 && x0 + ps <= canvas.Length1
    requires BlockInside(texture, from.y, from.x, ps, ps)
    modifies canvas
    ensures forall r, c :: 0 <= r < canvas.Length0 && 0 <= c < canvas.Length1 ==>
              canvas[r, c] == if y0 <= r < y0 + ps && x0 <= c < x0 + ps
                              then texture[from.y + r - y0][from.x + c - x0]
                              else old(canvas[r, c])
  {
    var a := 0;
    while a < ps
      invariant 0 <= a <= ps
      invariant forall r, c :: 0 <= r < canvas.Length0 && 0 <= c < canvas.Length1 ==>
                  canvas[r, c] == if y0 <= r < y0 + a && x0 <= c < x0 + ps
                                  then texture[from.y + r - y0][from.x + c - x0]
                                  else old(canvas[r, c])
    {
      var b := 0;
      while b < ps
        invariant 0 <= b <= ps
        invariant forall r, c :: 0 <= r < canvas.Length0 && 0 <= c < canvas.Length1 ==>
                    canvas[r, c] == if (y0 <= r < y0 + a && x0 <= c < x0 + ps) || (r == y0 + a && x0 <= c < x0 + b)
                                    then texture[from.y + r - y0][from.x + c - x0]
                                    else old(canvas[r, c])
      {
        canvas[y0 + a, x0 + b] := texture[from.y + a][from.x + b];
        b := b + 1;
      }
      a := a + 1;
    }
  }

  /** The draws of a whole quilt are well-formed: one `DonorDraws` per grid cell. */
  predicate GridDrawsOk<T>(src: Source<T>, draws: seq<seq<DonorDraws>>, nh: nat, nw: nat) {
    |draws| == nh &&
    forall i :: 0 <= i < nh ==> |draws[i]| == nw && forall j :: 0 <= j < nw ==> DonorDrawsOk(src, draws[i][j])
  }

  /** The pixel that patch (i, j) puts at canvas cell (r, c). */
  function PatchPixel<T>(src: Source<T>, win: Windows, draws: seq<seq<DonorDraws>>, nh: nat, nw: nat,
                         i: nat, j: nat, r: int, c: int): T
    requires ValidSource(src) && GridDrawsOk(src, draws, nh, nw)
    requires i < nh && j < nw && Covers(i, src.patchSize, r) && Covers(j, src.patchSize, c)
  {
    var p := DonorChoice(src, win, draws[i][j]).pos;
    src.texture[p.y + r - Origin(i, src.patchSize)][p.x + c - Origin(j, src.patchSize)]
  }

  /** The quilt's pixel at cell (r, c): that of the last patch in row-major order covering
      the cell, or `blank` (numpy's zero) where no patch does. */
  function QuiltPixel<T>(src: Source<T>, win: Windows, draws: seq<seq<DonorDraws>>, nh: nat, nw: nat,
                         blank: T, r: int, c: int): T
    requires ValidSource(src) && GridDrawsOk(src, draws, nh, nw)
  {
    var ps := src.patchSize;
    match (LastCover(nh, ps, r), LastCover(nw, ps, c))
    case (Some(i), Some(j)) => PatchPixel(src, win, draws, nh, nw, i, j, r, c)
    case _ => blank
  }

  /** The canvas cell (r, c) once rows above `i` and patches left of `j` in row `i` are painted. */
  function PaintedSoFar<T>(src: Source<T>, win: Windows, draws: seq<seq<DonorDraws>>, nh: nat, nw: nat,
                           blank: T, i: nat, j: nat, r: int, c: int): T
    requires ValidSource(src) && GridDrawsOk(src, draws, nh, nw)
    requires i <= nh && j <= nw
  {
    var ps := src.patchSize;
    var inRow := if i < nh && Covers(i, ps, r) then LastCover(j, ps, c) else None;
    if inRow.Some? then PatchPixel(src, win, draws, nh, nw, i, inRow.value, r, c)
    else match (LastCover(i, ps, r), LastCover(nw, ps, c))
      case (Some(ti), Some(tj)) => PatchPixel(src, win, draws, nh, nw, ti, tj, r, c)
      case _ => blank
  }

  /** Nothing is painted before the first patch. */
  lemma PaintedNothing<T>(src: Source<T>, win: Windows, draws: seq<seq<DonorDraws>>, nh: nat, nw: nat,
                          blank: T, r: int, c: int)
    requires ValidSource(src) && GridDrawsOk(src, draws, nh, nw)
    ensures PaintedSoFar(src, win, draws, nh, nw, blank, 0, 0, r, c) == blank
  {
  }

  /** Painting patch (i, j) changes exactly the cells it covers, to its own pixels. */
  lemma PaintedStep<T>(src: Source<T>, win: Windows, draws: seq<seq<DonorDraws>>, nh: nat, nw: nat,
                       blank: T, i: nat, j: nat, r: int, c: int)
    requires ValidSource(src) && GridDrawsOk(src, draws, nh, nw)
    requires i < nh && j < nw
    ensures PaintedSoFar(src, win, draws, nh, nw, blank, i, j + 1, r, c) ==
            if Covers(i, src.patchSize, r) && Covers(j, src.patchSize, c)
            then PatchPixel(src, win, draws, nh, nw, i, j, r, c)
            else PaintedSoFar(src, win, draws, nh, nw, blank, i, j, r, c)
  {
    var ps := src.patchSize;
    assert LastCover(j + 1, ps, c) == if Covers(j, ps, c) then Some(j) else LastCover(j, ps, c);
  }

  /** A finished row hands over to the next: the state after the last patch of row `i`
      is the state before the first patch of row `i + 1`. */
  lemma PaintedRowDone<T>(src: Source<T>, win: Windows, draws: seq<seq<DonorDraws>>, nh: nat, nw: nat,
                          blank: T, i: nat, r: int, c: int)
    requires ValidSource(src) && GridDrawsOk(src, draws, nh, nw)
    requires i < nh
    ensures PaintedSoFar(src, win, draws, nh, nw, blank, i, nw, r, c) ==
            PaintedSoFar(src, win, draws, nh, nw, blank, i + 1, 0, r, c)
  {
    var ps := src.patchSize;
    assert LastCover(i + 1, ps, r) == if Covers(i, ps, r) then Some(i) else LastCover(i, ps, r);
  }

  /** After all rows, the painted state is the quilt's specification. */
  lemma PaintedAll<T>(src: Source<T>, win: Windows, draws: seq<seq<DonorDraws>>, nh: nat, nw: nat,
                      blank: T, r: int, c: int)
    requires ValidSource(src) && GridDrawsOk(src, draws, nh, nw)
    ensures PaintedSoFar(src, win, draws, nh, nw, blank, nh, 0, r, c) == QuiltPixel(src, win, draws, nh, nw, blank, r, c)
  {
  }

  /** One step of the inner loop of `quilt_texture` (lines 589-601): the donor search for
      grid cell (i, j) and the patch it paints. */
  method PaintCell<T>(canvas: array2<T>, src: Source<T>, win: Windows, draws: seq<seq<DonorDraws>>,
                      nh: nat, nw: nat, blank: T, i: nat, j: nat)
    requires ValidSource(src) && GridDrawsOk(src, draws, nh, nw) && i < nh && j < nw
    requires canvas.Length0 == CanvasLength(nh, src.patchSize) && canvas.Length1 == CanvasLength(nw, src.patchSize)
    requires forall r, c :: 0 <= r < canvas.Length0 && 0 <= c < canvas.Length1 ==>
               canvas[r, c] == PaintedSoFar(src, win, draws, nh, nw, blank, i, j, r, c)
    modifies canvas
    ensures forall r, c :: 0 <= r < canvas.Length0 && 0 <= c < canvas.Length1 ==>
              canvas[r, c] == PaintedSoFar(src, win, draws, nh, nw, blank, i, j + 1, r, c)
  {
    var ps := src.patchSize;
    var d := GetRandomPatch(src, win, draws[i][j]);
    PatchInsideCanvas(nh, ps, i);
    PatchInsideCanvas(nw, ps, j);
    var y0, x0 := Origin(i, ps), Origin(j, ps);
    PaintPatch(canvas, src.texture, d.pos, y0, x0, ps);
    forall r, c | 0 <= r < canvas.Length0 && 0 <= c < canvas.Length1
      ensures canvas[r, c] == PaintedSoFar(src, win, draws, nh, nw, blank, i, j + 1, r, c)
    {
      PaintedStep(src, win, draws, nh, nw, blank, i, j, r, c);
      if Covers(i, ps, r) && Covers(j, ps, c) {
        assert canvas[r, c] == src.texture[d.pos.y + r - y0][d.pos.x + c - x0];
      } else {
        assert canvas[r, c] == old(canvas[r, c]);
      }
    }
  }

  /** One pass of the inner loop of `quilt_texture` (lines 588-601): a donor search and a
      painted patch for each cell of grid row `i`. */
  method PaintRow<T>(canvas: array2<T>, src: Source<T>, win: Windows, draws: seq<seq<DonorDraws>>,
                     nh: nat, nw: nat, blank: T, i: nat)
    requires ValidSource(src) && GridDrawsOk(src, draws, nh, nw) && i < nh
    requires canvas.Length0 == CanvasLength(nh, src.patchSize) && canvas.Length1 == CanvasLength(nw, src.patchSize)
    requires forall r, c :: 0 <= r < canvas.Length0 && 0 <= c < canvas.Length1 ==>
               canvas[r, c] == PaintedSoFar(src, win, draws, nh, nw, blank, i, 0, r, c)
    modifies canvas
    ensures forall r, c :: 0 <= r < canvas.Length0 && 0 <= c < canvas.Length1 ==>
              canvas[r, c] == PaintedSoFar(src, win, draws, nh, nw, blank, i + 1, 0, r, c)
  {
    var ps := src.patchSize;
    var j := 0;
    while j < nw
      invariant 0 <= j <= nw
      invariant forall r, c :: 0 <= r < canvas.Length0 && 0 <= c < canvas.Length1 ==>
                  canvas[r, c] == PaintedSoFar(src, win, draws, nh, nw, blank, i, j, r, c)
    {
      PaintCell(canvas, src, win, draws, nh, nw, blank, i, j);
      j := j + 1;
    }
    forall r, c | 0 <= r < canvas.Length0 && 0 <= c < canvas.Length1
      ensures canvas[r, c] == PaintedSoFar(src, win, draws, nh, nw, blank, i + 1, 0, r, c)
    {
      PaintedRowDone(src, win, draws, nh, nw, blank, i, r, c);
    }
  }

  /** `np.zeros` for the quilt (line 556): the canvas before any patch is painted. */
  method BlankCanvas<T>(src: Source<T>, win: Windows, draws: seq<seq<DonorDraws>>, nh: nat, nw: nat, blank: T)
    returns (canvas: array2<T>)
    requires ValidSource(src) && GridDrawsOk(src, draws, nh, nw)
    ensures fresh(canvas)
    ensures canvas.Length0 == CanvasLength(nh, src.patchSize) && canvas.Length1 == CanvasLength(nw, src.patchSize)
    ensures forall r, c :: 0 <= r < canvas.Length0 && 0 <= c < canvas.Length1 ==>
              canvas[r, c] == PaintedSoFar(src, win, draws, nh, nw, blank, 0, 0, r, c)
  {
    canvas := new T[CanvasLength(nh, src.patchSize), CanvasLength(nw, src.patchSize)]((r, c) => blank);
    forall r, c | 0 <= r < canvas.Length0 && 0 <= c < canvas.Length1
      ensures canvas[r, c] == PaintedSoFar(src, win, draws, nh, nw, blank, 0, 0, r, c)
    {
      PaintedNothing(src, win, draws, nh, nw, blank, r, c);
    }
  }

  /** The outcome of `quilt_texture`: the painted canvas with the reference windows, or the
      `ValueError` that `np.random.randint(0)` (or of a negative bound) raises at line 568
      when the texture is no larger than a patch on some axis. */
  datatype Quilt<T> = Quilted(canvas: array2<T>, win: Windows) | EmptyDrawRange

  /** `quilt_texture` up to the smoothing pass (lines 543-601): the reference search, then
      one donor search and one painted patch per grid cell, row by row. */
  method QuiltTexture<T>(src: Source<T>, nw: nat, nh: nat, blank: T,
                         refTries: seq<Pos>, draws: seq<seq<DonorDraws>>)
    returns (q: Quilt<T>)
    requires WellFormedSource(src)
    requires DrawsPossible(src) ==> DrawsOk(src, refTries) && GridDrawsOk(src, draws, nh, nw)
    ensures q.EmptyDrawRange? <==> !DrawsPossible(src)
    ensures q.Quilted? ==> fresh(q.canvas)
    ensures q.Quilted? ==> q.canvas.Length0 == CanvasLength(nh, src.patchSize)
    ensures q.Quilted? ==> q.canvas.Length1 == CanvasLength(nw, src.patchSize)
    ensures q.Quilted? ==> q.win == WindowsAround(src, ReferencePos(src, refTries))
    ensures q.Quilted? ==> forall r, c :: 0 <= r < q.canvas.Length0 && 0 <= c < q.canvas.Length1 ==>
              q.canvas[r, c] == QuiltPixel(src, q.win, draws, nh, nw, blank, r, c)
  {
    if !DrawsPossible(src) {
      return EmptyDrawRange;
    }
    var ps := src.patchSize;
    var p, win := ReferenceWindows(src, refTries);
    var canvas := BlankCanvas(src, win, draws, nh, nw, blank);
    var i := 0;
    while i < nh
      invariant 0 <= i <= nh
      invariant canvas.Length0 == CanvasLength(nh, ps) && canvas.Length1 == CanvasLength(nw, ps)
      invariant forall r, c :: 0 <= r < canvas.Length0 && 0 <= c < canvas.Length1 ==>
                  canvas[r, c] == PaintedSoFar(src, win, draws, nh, nw, blank, i, 0, r, c)
    {
      PaintRow(canvas, src, win, draws, nh, nw, blank, i);
      i := i + 1;
    }
    forall r, c | 0 <= r < canvas.Length0 && 0 <= c < canvas.Length1
      ensures canvas[r, c] == QuiltPixel(src, win, draws, nh, nw, blank, r, c)
    {
      PaintedAll(src, win, draws, nh, nw, blank, r, c);
    }
    q := Quilted(canvas, win);
  }
}
