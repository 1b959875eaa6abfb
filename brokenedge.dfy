/** The integer part of `TextureGenerator.generate_broken_edge_texture`: the generated
    points are truncated to integers, those within 2 pixels of the border are dropped, and
    the noise field is copied onto an all-white 400 by 400 canvas at the survivors. */
module BrokenEdge {
  import opened Numeric
  import opened Grid

  /** The fixed internal resolution (both axes). */
  const CanvasSize: nat := 400

  /** Width of the border band whose points are dropped. */
  const BorderBand: nat := 2

  /** The value the canvas starts with (`np.full(..., fill_value=255)`). */
  const White: int := 255

  /** A point: column `x`, row `y`. */
  datatype Point = Point(x: int, y: int)

  /** The point lies at least `BorderBand` pixels inside the canvas on both axes. */
  predicate InBand(p: Point) {
    BorderBand <= p.x < CanvasSize - BorderBand && BorderBand <= p.y < CanvasSize - BorderBand
  }

  /** The points that survive the deletion of lines 189-199, in their original order. */
  function KeepInBand(pts: seq<Point>): (r: seq<Point>)
    ensures |r| <= |pts|
    ensures forall k :: 0 <= k < |r| ==> InBand(r[k])
    ensures forall p :: p in r <==> p in pts && InBand(p)
  {
    if |pts| == 0 then []
    else (if InBand(pts[0]) then [pts[0]] else []) + KeepInBand(pts[1..])
  }

  /** Filtering a concatenation filters each part. */
  lemma {:induction false} KeepInBandAppend(a: seq<Point>, b: seq<Point>)
    ensures KeepInBand(a + b) == KeepInBand(a) + KeepInBand(b)
  {
    if |a| == 0 {
      assert a + b == b;
    } else {
      assert (a + b)[0] == a[0];
      assert (a + b)[1..] == a[1..] + b;
      KeepInBandAppend(a[1..], b);
      var head := if InBand(a[0]) then [a[0]] else [];
      assert KeepInBand(a + b) == head + (KeepInBand(a[1..]) + KeepInBand(b));
      assert head + (KeepInBand(a[1..]) + KeepInBand(b)) == (head + KeepInBand(a[1..])) + KeepInBand(b);
    }
  }

  /** Filtering twice is filtering once. */
  lemma {:induction false} KeepInBandIdempotent(pts: seq<Point>)
    ensures KeepInBand(KeepInBand(pts)) == KeepInBand(pts)
  {
    if |pts| > 0 {
      KeepInBandIdempotent(pts[1..]);
      var head := if InBand(pts[0]) then [pts[0]] else [];
      KeepInBandAppend(head, KeepInBand(pts[1..]));
    }
  }

  /** The clustered samples after `astype("int")` (truncation toward zero). */
  function ClusterPoints(xs: seq<real>, ys: seq<real>): (r: seq<Point>)
    requires |xs| == |ys|
    ensures |r| == |xs|
  {
    seq(|xs|, k requires 0 <= k < |xs| => Point(Trunc(xs[k]), Trunc(ys[k])))
  }

  /** All generated points: the seed (0, 0) of lines 160-161 followed by the samples. */
  function GeneratedPoints(xs: seq<real>, ys: seq<real>): (r: seq<Point>)
    requires |xs| == |ys|
    ensures |r| == |xs| + 1 && r[0] == Point(0, 0)
    ensures forall k :: 0 <= k < |xs| ==> r[k + 1] == Point(Trunc(xs[k]), Trunc(ys[k]))
  {
    [Point(0, 0)] + ClusterPoints(xs, ys)
  }

  /** The seed point never survives: the survivors are exactly the surviving samples. */
  lemma SeedAlwaysRemoved(xs: seq<real>, ys: seq<real>)
    requires |xs| == |ys|
    ensures KeepInBand(GeneratedPoints(xs, ys)) == KeepInBand(ClusterPoints(xs, ys))
    ensures Point(0, 0) !in KeepInBand(GeneratedPoints(xs, ys))
  {
    KeepInBandAppend([Point(0, 0)], ClusterPoints(xs, ys));
  }

  /** A sample in (-1, 2) on either axis truncates into the dropped band: samples just
      below zero are not wrapped round to the far edge. */
  lemma NearZeroSampleDropped(x: real, y: real)
    requires -1.0 < x < 2.0
    ensures !InBand(Point(Trunc(x), Trunc(y)))
  {
  }

  /** numpy's `image_noise[ys, xs] = image_random[ys, xs]` (line 208) over in-band points. */
  method WritePoints(noise: array2<int>, field: seq<seq<int>>, pts: seq<Point>)
    requires noise.Length0 == CanvasSize && noise.Length1 == CanvasSize
    requires IsGrid(field, CanvasSize, CanvasSize)
    requires forall k :: 0 <= k < |pts| ==> InBand(pts[k])
    modifies noise
    ensures forall r, c :: 0 <= r < CanvasSize && 0 <= c < CanvasSize ==>
              noise[r, c] == if Point(c, r) in pts then field[r][c] else old(noise[r, c])
  {
    var k := 0;
    while k < |pts|
      invariant 0 <= k <= |pts|
      invariant forall r, c :: 0 <= r < CanvasSize && 0 <= c < CanvasSize ==>
                  noise[r, c] == if Point(c, r) in pts[..k] then field[r][c] else old(noise[r, c])
    {
      var p := pts[k];
      noise[p.y, p.x] := field[p.y][p.x];
      assert pts[..k + 1] == pts[..k] + [p];
      k := k + 1;
    }
    assert pts[..k] == pts;
  }

  /** The noise canvas before blurring: white everywhere except at the surviving points,
      which take the value of the (caller-supplied, already banded) random field. */
  method BrokenEdgeNoise(xs: seq<real>, ys: seq<real>, field: seq<seq<int>>) returns (noise: array2<int>)
    requires |xs| == |ys|
    requires IsGrid(field, CanvasSize, CanvasSize)
    ensures fresh(noise) && noise.Length0 == CanvasSize && noise.Length1 == CanvasSize
    ensures forall r, c :: 0 <= r < CanvasSize && 0 <= c < CanvasSize ==>
              noise[r, c] == if Point(c, r) in KeepInBand(ClusterPoints(xs, ys)) then field[r][c] else White
  {
    noise := new int[CanvasSize, CanvasSize]((r, c) => White);
    var survivors := KeepInBand(GeneratedPoints(xs, ys));
    SeedAlwaysRemoved(xs, ys);
    WritePoints(noise, field, survivors);
  }
}
