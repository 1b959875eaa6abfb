/** Images as rows of pixels, with numpy's slicing and averaging over them. */
module Grid {
  import opened Numeric

  /** `g` is an `h` by `w` image: `h` rows, each of `w` pixels. */
  predicate IsGrid<T>(g: seq<seq<T>>, h: nat, w: nat) {
    |g| == h && forall r :: 0 <= r < |g| ==> |g[r]| == w
  }

  /** The width of an image (the length of its first row; 0 for no rows). */
  function Width<T>(g: seq<seq<T>>): nat {
    if |g| == 0 then 0 else |g[0]|
  }

  /** All rows have the same width. */
  predicate Rectangular<T>(g: seq<seq<T>>) {
    IsGrid(g, |g|, Width(g))
  }

  /** Python's normalisation of a slice bound `i` on a sequence of length `n`:
      a negative bound counts from the end, and the result is clamped to [0, n]. */
  function ClampIndex(i: int, n: nat): (k: nat)
    ensures k <= n
    ensures 0 <= i ==> k == Min(i, n)
  {
    if i < 0 then (if i + n < 0 then 0 else i + n) else Min(i, n)
  }

  /** First index that `s[start:stop]` keeps. */
  function SliceLo(start: int, n: nat): nat {
    ClampIndex(start, n)
  }

  /** Number of elements that `s[start:stop]` keeps on a sequence of length `n`. */
  function SliceLen(start: int, stop: int, n: nat): (k: nat)
    ensures SliceLo(start, n) + k <= n
  {
    Max(ClampIndex(stop, n) - ClampIndex(start, n), 0)
  }

  /** Python's `s[start:stop]`. */
  function Slice<T>(s: seq<T>, start: int, stop: int): (r: seq<T>)
    ensures |r| == SliceLen(start, stop, |s|)
    ensures forall k :: 0 <= k < |r| ==> r[k] == s[SliceLo(start, |s|) + k]
  {
    var lo := SliceLo(start, |s|);
    s[lo .. lo + SliceLen(start, stop, |s|)]
  }

  /** numpy's `g[top:bottom, left:right]` on an image. */
  function SubGrid<T>(g: seq<seq<T>>, top: int, bottom: int, left: int, right: int): (r: seq<seq<T>>)
    requires Rectangular(g)
    ensures IsGrid(r, SliceLen(top, bottom, |g|), SliceLen(left, right, Width(g)))
    ensures forall i, j :: 0 <= i < |r| && 0 <= j < |r[i]| ==>
              r[i][j] == g[SliceLo(top, |g|) + i][SliceLo(left, Width(g)) + j]
  {
    var rows := Slice(g, top, bottom);
    seq(|rows|, i requires 0 <= i < |rows| => Slice(rows[i], left, right))
  }

  /** Sum of `row[x .. x + n]`. */
  function RowSum(row: seq<int>, x: nat, n: nat): int
    requires x + n <= |row|
  {
    if n == 0 then 0 else RowSum(row, x, n - 1) + row[x + n - 1]
  }

  /** The `h` by `w` block of `g` whose top-left pixel is row `y`, column `x`, lies inside `g`. */
  predicate BlockInside<T>(g: seq<seq<T>>, y: nat, x: nat, h: nat, w: nat) {
    y + h <= |g| && forall r :: y <= r < y + h ==> x + w <= |g[r]|
  }

  /** Sum of the `h` by `w` block of `g` at row `y`, column `x`. */
  function BlockSum(g: seq<seq<int>>, y: nat, x: nat, h: nat, w: nat): int
    requires BlockInside(g, y, x, h, w)
  {
    if h == 0 then 0 else BlockSum(g, y, x, h - 1, w) + RowSum(g[y + h - 1], x, w)
  }

  /** numpy's `np.mean(g[y:y+h, x:x+w])` on a non-empty block. */
  function BlockMean(g: seq<seq<int>>, y: nat, x: nat, h: nat, w: nat): real
    requires BlockInside(g, y, x, h, w) && h > 0 && w > 0
  {
    BlockSum(g, y, x, h, w) as real / (h * w) as real
  }

  /** Every pixel of the block lies in [lo, hi]. */
  predicate BlockWithin(g: seq<seq<int>>, y: nat, x: nat, h: nat, w: nat, lo: int, hi: int)
    requires BlockInside(g, y, x, h, w)
  {
    forall r, c :: y <= r < y + h && x <= c < x + w ==> lo <= g[r][c] <= hi
  }

  lemma {:induction false} RowSumBounds(row: seq<int>, x: nat, n: nat, lo: int, hi: int)
    requires x + n <= |row|
    requires forall c :: x <= c < x + n ==> lo <= row[c] <= hi
    ensures n * lo <= RowSum(row, x, n) <= n * hi
  {
    if n > 0 {
      RowSumBounds(row, x, n - 1, lo, hi);
      assert n * lo == (n - 1) * lo + lo && n * hi == (n - 1) * hi + hi;
    }
  }

  lemma {:induction false} BlockSumBounds(g: seq<seq<int>>, y: nat, x: nat, h: nat, w: nat, lo: int, hi: int)
    requires BlockInside(g, y, x, h, w) && BlockWithin(g, y, x, h, w, lo, hi)
    ensures h * w * lo <= BlockSum(g, y, x, h, w) <= h * w * hi
  {
    if h > 0 {
      assert BlockWithin(g, y, x, h - 1, w, lo, hi);
      BlockSumBounds(g, y, x, h - 1, w, lo, hi);
      RowSumBounds(g[y + h - 1], x, w, lo, hi);
      var p := (h - 1) * w;
      assert h * w == p + w;
      Distribute(p, w, lo);
      Distribute(p, w, hi);
    }
  }

  lemma Distribute(a: int, b: int, c: int)
    ensures (a + b) * c == a * c + b * c
  {
  }

  /** A quotient by a positive divisor keeps the bounds of its dividend. */
  lemma QuotientBounds(s: real, n: real, lo: real, hi: real)
    requires n > 0.0 && n * lo <= s <= n * hi
    ensures lo <= s / n <= hi
  {
    var q := s / n;
    assert q * n == s;
    assert (q - lo) * n == s - n * lo;
    assert (hi - q) * n == n * hi - s;
  }

  /** A mean of pixels that all lie in [lo, hi] lies in [lo, hi] too. */
  lemma BlockMeanBounds(g: seq<seq<int>>, y: nat, x: nat, h: nat, w: nat, lo: int, hi: int)
    requires BlockInside(g, y, x, h, w) && h > 0 && w > 0
    requires BlockWithin(g, y, x, h, w, lo, hi)
    ensures lo as real <= BlockMean(g, y, x, h, w) <= hi as real
  {
    BlockSumBounds(g, y, x, h, w, lo, hi);
    var n := h * w;
    assert n > 0;
    var s := BlockSum(g, y, x, h, w);
    assert n * lo <= s <= n * hi;
    assert (n * lo) as real == n as real * lo as real;
    assert (n * hi) as real == n as real * hi as real;
    QuotientBounds(s as real, n as real, lo as real, hi as real);
  }
}
