/** The mask of `TextureGenerator.remove_frequency`: the disk of radius `frequency` about
    the centre `(ysize // 2, xsize // 2)` is 0 and every other cell is 1. */
module FrequencyMask {
  import opened Grid

  /** Cell (y, x) lies in the closed disk of radius `r` about (cy, cx). */
  predicate InDisk(y: int, x: int, cy: int, cx: int, r: int) {
    (x - cx) * (x - cx) + (y - cy) * (y - cy) <= r * r
  }

  /** `mask = np.ones(...)` with `mask[(x - cx) ** 2 + (y - cy) ** 2 <= r * r] = 0`, where the
      radius is `random.randint(frequency, frequency)`, that is `frequency` itself. */
  function DiskMask(ysize: nat, xsize: nat, frequency: int): (m: seq<seq<int>>)
    ensures IsGrid(m, ysize, xsize)
    ensures forall y, x :: 0 <= y < ysize && 0 <= x < xsize ==>
              (m[y][x] == 0 || m[y][x] == 1) &&
              (m[y][x] == 0 <==> InDisk(y, x, ysize / 2, xsize / 2, frequency))
  {
    seq(ysize, y =>
      seq(xsize, x => if InDisk(y, x, ysize / 2, xsize / 2, frequency) then 0 else 1))
  }

  /** The centre cell is always masked, whatever the sign of the radius. */
  lemma CentreMasked(ysize: nat, xsize: nat, frequency: int)
    requires ysize >= 1 && xsize >= 1
    ensures DiskMask(ysize, xsize, frequency)[ysize / 2][xsize / 2] == 0
  {
    assert 0 <= frequency * frequency;
  }

  /** With radius 0 the centre is the only masked cell. */
  lemma ZeroRadiusMasksOnlyCentre(ysize: nat, xsize: nat, y: nat, x: nat)
    requires y < ysize && x < xsize
    ensures DiskMask(ysize, xsize, 0)[y][x] == 0 <==> y == ysize / 2 && x == xsize / 2
  {
    var dx, dy := x - xsize / 2, y - ysize / 2;
    if dx != 0 || dy != 0 {
      assert dx * dx > 0 || dy * dy > 0;
      assert dx * dx >= 0 && dy * dy >= 0;
    }
  }

  /** Only the square reached by the radius's absolute value can be masked. */
  lemma MaskedCellsNearCentre(ysize: nat, xsize: nat, frequency: int, y: nat, x: nat)
    requires y < ysize && x < xsize
    requires DiskMask(ysize, xsize, frequency)[y][x] == 0
    ensures -Abs(frequency) <= x - xsize / 2 <= Abs(frequency)
    ensures -Abs(frequency) <= y - ysize / 2 <= Abs(frequency)
  {
    var dx, dy, a := x - xsize / 2, y - ysize / 2, Abs(frequency);
    AbsSquare(dx);
    AbsSquare(dy);
    AbsSquare(frequency);
    assert Abs(dx) * Abs(dx) + Abs(dy) * Abs(dy) <= a * a;
    if Abs(dx) > a {
      SquareMonotone(a, Abs(dx));
    }
    if Abs(dy) > a {
      SquareMonotone(a, Abs(dy));
    }
  }

  /** A square is the square of the absolute value, and never negative. */
  lemma AbsSquare(n: int)
    ensures n * n == Abs(n) * Abs(n) && n * n >= 0
  {
    if n < 0 {
      assert n * n == (-n) * (-n);
    }
  }

  function Abs(n: int): (a: int)
    ensures a >= 0 && (a == n || a == -n)
  {
    if n < 0 then -n else n
  }

  lemma SquareMonotone(a: nat, b: nat)
    requires a < b
    ensures a * a < b * b
  {
    assert b * b - a * a == (b - a) * (b + a);
  }

  /** A radius and its negation give the same mask. */
  lemma SignIrrelevant(ysize: nat, xsize: nat, frequency: int)
    ensures DiskMask(ysize, xsize, -frequency) == DiskMask(ysize, xsize, frequency)
  {
    assert (-frequency) * (-frequency) == frequency * frequency;
    var a, b := DiskMask(ysize, xsize, -frequency), DiskMask(ysize, xsize, frequency);
    forall y | 0 <= y < ysize
      ensures a[y] == b[y]
    {
      assert forall x :: 0 <= x < xsize ==> a[y][x] == b[y][x];
    }
  }

  /** A larger radius masks every cell a smaller one does. */
  lemma MaskGrows(ysize: nat, xsize: nat, r1: nat, r2: nat, y: nat, x: nat)
    requires r1 <= r2 && y < ysize && x < xsize
    requires DiskMask(ysize, xsize, r1)[y][x] == 0
    ensures DiskMask(ysize, xsize, r2)[y][x] == 0
  {
    if r1 < r2 {
      SquareMonotone(r1, r2);
    }
  }
}
