/** The octave schedule of `TextureGenerator.generate_normal_texture`: noise is added at
    sizes `size / ratio` while `ratio`, starting at the smaller image side, is divided by the
    turbulence (and replaced by 1 once the quotient reaches 0) until it is 1. */
module NormalTexture {
  import opened Numeric

  /** `(ratio // turbulence) or 1`. */
  function NextRatio(ratio: nat, turbulence: nat): (next: nat)
    requires turbulence >= 2
    ensures next >= 1
    ensures ratio > 1 ==> next < ratio
    ensures next == 1 || next * turbulence <= ratio
  {
    if ratio / turbulence == 0 then 1 else ratio / turbulence
  }

  /** The ratios at which the loop body runs, starting from `ratio`: every one exceeds 1,
      none exceeds the start, and they strictly decrease. */
  function Ratios(ratio: nat, turbulence: nat): (rs: seq<nat>)
    requires ratio >= 1 && turbulence >= 2
    ensures forall k :: 0 <= k < |rs| ==> 2 <= rs[k] <= ratio
    ensures forall i, j :: 0 <= i < j < |rs| ==> rs[i] > rs[j]
    ensures ratio == 1 <==> |rs| == 0
    decreases ratio
  {
    if ratio == 1 then [] else [ratio] + Ratios(NextRatio(ratio, turbulence), turbulence)
  }

  function Pow(b: nat, e: nat): nat {
    if e == 0 then 1 else b * Pow(b, e - 1)
  }

  /** The number of octaves is logarithmic: `turbulence ^ (count - 1) <= ratio`. */
  lemma {:induction false} OctaveCountLogarithmic(ratio: nat, turbulence: nat)
    requires ratio >= 2 && turbulence >= 2
    ensures |Ratios(ratio, turbulence)| >= 1
    ensures Pow(turbulence, |Ratios(ratio, turbulence)| - 1) <= ratio
    decreases ratio
  {
    var next := NextRatio(ratio, turbulence);
    assert Ratios(ratio, turbulence) == [ratio] + Ratios(next, turbulence);
    if next >= 2 {
      OctaveCountLogarithmic(next, turbulence);
      var k := |Ratios(next, turbulence)|;
      var p := Pow(turbulence, k - 1);
      assert Pow(turbulence, k) == turbulence * p;
      MulLeft(turbulence, p, next);
      assert next * turbulence <= ratio;
    }
  }

  lemma MulLeft(c: nat, a: nat, b: nat)
    requires a <= b
    ensures c * a <= c * b
  {
    assert c * b - c * a == c * (b - a);
  }

  /** A 100 by 60 image with turbulence 2 adds noise at ratios 60, 30, 15, 7 and 3. */
  lemma SixtyWideSchedule()
    ensures Ratios(60, 2) == [60, 30, 15, 7, 3]
  {
    assert Ratios(3, 2) == [3];
    assert Ratios(7, 2) == [7, 3];
  }

  /** The noise sizes `(int(ysize / ratio), int(xsize / ratio))` for each ratio. */
  function Sizes(rs: seq<nat>, ysize: nat, xsize: nat): (s: seq<(nat, nat)>)
    requires forall k :: 0 <= k < |rs| ==> rs[k] >= 1
    ensures |s| == |rs|
  {
    seq(|rs|, k requires 0 <= k < |rs| => (ysize / rs[k], xsize / rs[k]))
  }

  /** Each noise size is the floor of the side over the ratio, on both axes. */
  lemma SizesAreFloors(rs: seq<nat>, ysize: nat, xsize: nat)
    requires forall k :: 0 <= k < |rs| ==> rs[k] >= 1
    ensures forall k :: 0 <= k < |rs| ==>
              FloorQuotient(Sizes(rs, ysize, xsize)[k].0, ysize, rs[k]) &&
              FloorQuotient(Sizes(rs, ysize, xsize)[k].1, xsize, rs[k])
  {
    forall k | 0 <= k < |rs|
      ensures FloorQuotient(Sizes(rs, ysize, xsize)[k].0, ysize, rs[k])
      ensures FloorQuotient(Sizes(rs, ysize, xsize)[k].1, xsize, rs[k])
    {
      FloorDivision(ysize, rs[k]);
      FloorDivision(xsize, rs[k]);
    }
  }

  /** `q` is the floor of `n / d`. */
  predicate FloorQuotient(q: nat, n: nat, d: nat) {
    q * d <= n < (q + 1) * d
  }

  /** `int(n / d)` on non-negative operands is the floor of the quotient. */
  lemma FloorDivision(n: nat, d: nat)
    requires d >= 1
    ensures FloorQuotient(n / d, n, d)
  {
    assert n == d * (n / d) + n % d;
    assert (n / d + 1) * d == d * (n / d) + d;
  }

  lemma SizesAppend(rs: seq<nat>, r: nat, ysize: nat, xsize: nat)
    requires forall k :: 0 <= k < |rs| ==> rs[k] >= 1
    requires r >= 1
    ensures Sizes(rs + [r], ysize, xsize) == Sizes(rs, ysize, xsize) + [(ysize / r, xsize / r)]
  {
    var a, b := Sizes(rs + [r], ysize, xsize), Sizes(rs, ysize, xsize) + [(ysize / r, xsize / r)];
    forall k | 0 <= k < |a|
      ensures a[k] == b[k]
    {
      if k < |rs| {
        assert (rs + [r])[k] == rs[k];
      }
    }
  }

  /** Every noise layer the schedule draws is at least 1 by 1. */
  lemma SizesPositive(ysize: nat, xsize: nat, turbulence: nat)
    requires ysize >= 1 && xsize >= 1 && turbulence >= 2
    ensures forall k :: 0 <= k < |Ratios(Min(xsize, ysize), turbulence)| ==>
              Sizes(Ratios(Min(xsize, ysize), turbulence), ysize, xsize)[k].0 >= 1 &&
              Sizes(Ratios(Min(xsize, ysize), turbulence), ysize, xsize)[k].1 >= 1
  {
  }

  /** The outcome of the loop: the sizes of the noise layers, or the `ZeroDivisionError`
      that `int(ysize / ratio)` raises when a side is 0. */
  datatype Schedule = Layers(sizes: seq<(nat, nat)>) | ZeroDivision

  /** The `while ratio != 1` loop of lines 50-58. With `turbulence` at least 2 it terminates;
      with 1 it would not, and with 0 the floor division raises. */
  method NoiseSchedule(xsize: nat, ysize: nat, turbulence: nat) returns (s: Schedule)
    requires turbulence >= 2
    ensures s.ZeroDivision? <==> Min(xsize, ysize) == 0
    ensures s.Layers? ==> s.sizes == Sizes(Ratios(Min(xsize, ysize), turbulence), ysize, xsize)
    ensures s.Layers? ==> forall k :: 0 <= k < |s.sizes| ==> s.sizes[k].0 >= 1 && s.sizes[k].1 >= 1
  {
    var ratio := Min(xsize, ysize);
    if ratio == 0 {
      return ZeroDivision;
    }
    ghost var all := Ratios(ratio, turbulence);
    ghost var seen: seq<nat> := [];
    var sizes: seq<(nat, nat)> := [];
    while ratio != 1
      invariant 1 <= ratio <= Min(xsize, ysize)
      invariant all == seen + Ratios(ratio, turbulence)
      invariant forall k :: 0 <= k < |seen| ==> seen[k] >= 1
      invariant sizes == Sizes(seen, ysize, xsize)
      decreases ratio
    {
      SizesAppend(seen, ratio, ysize, xsize);
      assert Ratios(ratio, turbulence) == [ratio] + Ratios(NextRatio(ratio, turbulence), turbulence);
      assert seen + ([ratio] + Ratios(NextRatio(ratio, turbulence), turbulence))
          == (seen + [ratio]) + Ratios(NextRatio(ratio, turbulence), turbulence);
      sizes := sizes + [(ysize / ratio, xsize / ratio)];
      seen := seen + [ratio];
      ratio := NextRatio(ratio, turbulence);
    }
    assert seen == all;
    SizesPositive(ysize, xsize, turbulence);
    s := Layers(sizes);
  }
}
