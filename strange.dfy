/** The per-pixel rule of `TextureGenerator.generate_strange_texture`: the XOR value of a
    pixel's shifted coordinates and the divisibility test that makes it background. */
module StrangePattern {
  import opened Numeric

  /** Bitwise exclusive or of two non-negative integers (Python's `^`): the lowest bit is
      the parity of the sum, and the result never exceeds the sum. */
  function Xor(a: nat, b: nat): (r: nat)
    ensures r <= a + b
    ensures r % 2 == (a + b) % 2
    decreases a + b
  {
    if a == 0 then b
    else if b == 0 then a
    else
      var h := Xor(a / 2, b / 2);
      XorStep(a, b, h);
      2 * h + (a % 2 + b % 2) % 2
  }

  /** The step of `Xor` that puts the lowest bit back under the result on the halves. */
  lemma XorStep(a: nat, b: nat, h: nat)
    requires h <= a / 2 + b / 2
    ensures 2 * h + (a % 2 + b % 2) % 2 <= a + b
    ensures (2 * h + (a % 2 + b % 2) % 2) % 2 == (a + b) % 2
  {
    var t := (a % 2 + b % 2) % 2;
    assert a == 2 * (a / 2) + a % 2 && b == 2 * (b / 2) + b % 2;
    assert t == (a + b) % 2;
    assert (2 * h + t) % 2 == t;
  }

  /** Bit `k` of `n`, counting from the least significant. */
  function Bit(n: nat, k: nat): bool {
    if k == 0 then n % 2 == 1 else Bit(n / 2, k - 1)
  }

  lemma {:induction false} ZeroBits(k: nat)
    ensures !Bit(0, k)
  {
    if k > 0 {
      ZeroBits(k - 1);
    }
  }

  /** Dropping the lowest bit commutes with `Xor`. */
  lemma XorHalf(a: nat, b: nat)
    ensures Xor(a, b) / 2 == Xor(a / 2, b / 2)
  {
    if a > 0 && b > 0 {
      var t := (a % 2 + b % 2) % 2;
      assert Xor(a, b) == 2 * Xor(a / 2, b / 2) + t;
    }
  }

  /** `Xor` is bitwise: bit `k` of the result is set exactly when the operands differ there. */
  lemma {:induction false} XorBits(a: nat, b: nat, k: nat)
    ensures Bit(Xor(a, b), k) == (Bit(a, k) != Bit(b, k))
  {
    if k > 0 {
      XorHalf(a, b);
      XorBits(a / 2, b / 2, k - 1);
      assert Bit(Xor(a, b), k) == Bit(Xor(a / 2, b / 2), k - 1);
    }
  }

  lemma {:induction false} XorSelf(a: nat)
    ensures Xor(a, a) == 0
    decreases a
  {
    if a > 0 {
      XorSelf(a / 2);
    }
  }

  lemma {:induction false} XorZeroIffEqual(a: nat, b: nat)
    ensures Xor(a, b) == 0 <==> a == b
    decreases a + b
  {
    if a > 0 && b > 0 {
      XorZeroIffEqual(a / 2, b / 2);
      assert a == 2 * (a / 2) + a % 2 && b == 2 * (b / 2) + b % 2;
    }
  }

  /** The coordinate shift `t * 80 + m * 10` with `t` and `m` drawn by `random.uniform(0, 100)`. */
  function Shift(uT: real, uM: real): (s: real)
    requires 0.0 <= uT < 1.0 && 0.0 <= uM < 1.0
    ensures 0.0 <= s < 9000.0
  {
    Uniform(0.0, 100.0, uT) * 80.0 + Uniform(0.0, 100.0, uM) * 10.0
  }

  /** The value of pixel (x, y) (line 104): `int(x + shiftX) ^ int(y + shiftY)`. */
  function PixelValue(x: nat, y: nat, uT: real, uM0: real, uM1: real): (v: nat)
    requires 0.0 <= uT < 1.0 && 0.0 <= uM0 < 1.0 && 0.0 <= uM1 < 1.0
    ensures v == 0 <==> Trunc(x as real + Shift(uT, uM0)) == Trunc(y as real + Shift(uT, uM1))
  {
    var a, b := Trunc(x as real + Shift(uT, uM0)), Trunc(y as real + Shift(uT, uM1));
    XorZeroIffEqual(a, b);
    Xor(a, b)
  }

  /** `int(np.floor(np.sqrt(v)))`: the integer square root. */
  function Isqrt(v: nat): (s: nat)
    ensures s * s <= v < (s + 1) * (s + 1)
  {
    if v == 0 then 0
    else
      var s := Isqrt(v - 1);
      if (s + 1) * (s + 1) <= v then s + 1 else s
  }

  /** The integer square root is the only `s` with `s * s <= v < (s + 1) * (s + 1)`. */
  lemma IsqrtUnique(v: nat, s: nat)
    requires s * s <= v < (s + 1) * (s + 1)
    ensures Isqrt(v) == s
  {
    var t := Isqrt(v);
    if t < s {
      assert (t + 1) * (t + 1) <= s * s by { MulSelfMonotone(t + 1, s); }
    } else if t > s {
      assert (s + 1) * (s + 1) <= t * t by { MulSelfMonotone(s + 1, t); }
    }
  }

  lemma MulSelfMonotone(a: nat, b: nat)
    requires a <= b
    ensures a * a <= b * b
  {
    assert b * b - a * a == (b - a) * (b + a);
  }

  lemma AtLeastSelf(s: nat)
    requires s >= 1
    ensures s <= s * s
  {
    assert s * s == s * (s - 1) + s;
    assert s * (s - 1) >= 0;
  }

  /** The `k`-th candidate divisor of `range(3, ..., stride)`. */
  function Candidate(k: nat, stride: nat): nat {
    3 + k * stride
  }

  /** Some candidate of `range(3, Isqrt(v), stride)` divides `v`. */
  ghost predicate HasCandidateDivisor(v: nat, stride: nat) {
    exists k: nat :: Candidate(k, stride) < Isqrt(v) && v % Candidate(k, stride) == 0
  }

  /** The pixel rule (lines 107-114): background iff the value is at most 1, or even and
      above 2, or has a divisor among the strided candidates below its square root. */
  ghost predicate IsBackground(v: nat, stride: nat) {
    v <= 1 || (v % 2 == 0 && v > 2) || HasCandidateDivisor(v, stride)
  }

  /** Some of the first `k` candidates divides `v`. */
  function DividesAmongFirst(v: nat, stride: nat, k: nat): bool {
    k > 0 && (DividesAmongFirst(v, stride, k - 1) || v % Candidate(k - 1, stride) == 0)
  }

  lemma {:induction false} DividesAmongFirstMeans(v: nat, stride: nat, k: nat)
    ensures DividesAmongFirst(v, stride, k) <==> exists j: nat :: j < k && v % Candidate(j, stride) == 0
  {
    if k > 0 {
      DividesAmongFirstMeans(v, stride, k - 1);
    }
  }

  /** Candidates grow with their index. */
  lemma CandidateMonotone(j: nat, k: nat, stride: nat)
    requires j <= k
    ensures Candidate(j, stride) <= Candidate(k, stride)
  {
    assert k * stride == j * stride + (k - j) * stride;
  }

  /** Once the scan has passed the square root, the candidates it saw are all there are. */
  lemma ScanComplete(v: nat, stride: nat, k: nat)
    requires Candidate(k, stride) >= Isqrt(v)
    requires k > 0 ==> Candidate(k - 1, stride) < Isqrt(v)
    ensures DividesAmongFirst(v, stride, k) == HasCandidateDivisor(v, stride)
  {
    DividesAmongFirstMeans(v, stride, k);
    if HasCandidateDivisor(v, stride) {
      var j: nat :| Candidate(j, stride) < Isqrt(v) && v % Candidate(j, stride) == 0;
      if j >= k {
        CandidateMonotone(k, j, stride);
      }
    }
    if DividesAmongFirst(v, stride, k) {
      var j: nat :| j < k && v % Candidate(j, stride) == 0;
      CandidateMonotone(j, k - 1, stride);
    }
  }

  /** The classification loop for one pixel, with the stride drawn by `random.randint(1, 10)`.
      Returns true for background (`color = background_value`), false for foreground (1.0). */
  method ClassifyPixel(v: nat, stride: nat) returns (background: bool)
    requires 1 <= stride <= 10
    ensures background == IsBackground(v, stride)
  {
    background := false;
    if v <= 1 {
      background := true;
    }
    if v % 2 == 0 && v > 2 {
      background := true;
    }
    var hi := Isqrt(v);
    var i := 3;
    ghost var k: nat := 0;
    while i < hi
      invariant i == Candidate(k, stride)
      invariant k > 0 ==> Candidate(k - 1, stride) < hi
      invariant background == (v <= 1 || (v % 2 == 0 && v > 2) || DividesAmongFirst(v, stride, k))
      decreases hi - i
    {
      if v % i == 0 {
        background := true;
      }
      i, k := i + stride, k + 1;
    }
    ScanComplete(v, stride, k);
  }

  /** Values 0 and 1 are always background. */
  lemma SmallValuesAreBackground(v: nat, stride: nat)
    requires v <= 1
    ensures IsBackground(v, stride)
  {
  }

  /** The value 2 is foreground for every stride. */
  lemma TwoIsForeground(stride: nat)
    ensures !IsBackground(2, stride)
  {
    IsqrtUnique(2, 1);
  }

  /** No candidate divides an odd prime, so an odd prime is foreground for every stride. */
  lemma OddPrimeIsForeground(p: nat, stride: nat)
    requires p >= 3 && p % 2 == 1
    requires forall d :: 2 <= d < p ==> p % d != 0
    ensures !IsBackground(p, stride)
  {
    var s := Isqrt(p);
    assert s <= p by {
      if s > 0 {
        AtLeastSelf(s);
      }
    }
    forall k: nat | Candidate(k, stride) < s
      ensures p % Candidate(k, stride) != 0
    {
      assert 2 <= Candidate(k, stride) < p;
    }
  }

  /** An odd value with a candidate divisor below its square root is background. */
  lemma SmallDivisorIsBackground(v: nat, d: nat, stride: nat)
    requires stride >= 1 && d >= 3 && (d - 3) % stride == 0
    requires d < Isqrt(v) && v % d == 0
    ensures IsBackground(v, stride)
  {
    var k: nat := (d - 3) / stride;
    assert Candidate(k, stride) == d;
  }

  /** The scan stops below the integer square root, so the square of an odd prime such as
      9 = 3 * 3 is foreground: the filter is not a primality test. */
  lemma NineIsForeground(stride: nat)
    ensures !IsBackground(9, stride)
  {
    IsqrtUnique(9, 3);
  }

  /** The randomly drawn stride changes the outcome: 77 = 7 * 11 is background with stride
      1 and foreground with stride 3, whose candidates below 8 are only 3 and 6. */
  lemma StrideChangesOutcome()
    ensures IsBackground(77, 1)
    ensures !IsBackground(77, 3)
  {
    IsqrtUnique(77, 8);
    SmallDivisorIsBackground(77, 7, 1);
    forall k: nat | Candidate(k, 3) < 8
      ensures 77 % Candidate(k, 3) != 0
    {
      assert k <= 1;
      assert Candidate(k, 3) == 3 || Candidate(k, 3) == 6;
    }
  }
}
