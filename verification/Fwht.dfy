/**
 The fast Walsh-Hadamard transform and the dense double sum that specifies it.

 Arithmetic is exact (`real`); the square root is a caller-supplied positive `scale` with
 `scale * scale == size`.
 */
module Fwht {
  import opened Wrappers

  // ---------- Bits ----------

  function Pow2(k: nat): (p: nat)
    ensures p >= 1
  {
    if k == 0 then 1 else 2 * Pow2(k - 1)
  }

  lemma Pow2Step(k: nat)
    requires k > 0
    ensures Pow2(k) == 2 * Pow2(k - 1)
  {
  }

  /** Bitwise `a & b` on non-negative integers. */
  function BitAnd(a: nat, b: nat): nat
    decreases a
  {
    if a == 0 || b == 0 then 0
    else 2 * BitAnd(a / 2, b / 2) + (if a % 2 == 1 && b % 2 == 1 then 1 else 0)
  }

  function PopCount(n: nat): nat {
    if n == 0 then 0 else n % 2 + PopCount(n / 2)
  }

  lemma {:induction false} BitAndSelf(n: nat)
    ensures BitAnd(n, n) == n
  {
    if n != 0 {
      BitAndSelf(n / 2);
    }
  }

  ghost predicate IsPowerOfTwo(n: nat) {
    exists k: nat :: n == Pow2(k)
  }

  /** The guard `size & (size - 1)` recognises exactly the powers of two. */
  lemma {:induction false} PowerOfTwoGuard(n: nat)
    requires n > 0
    ensures BitAnd(n, n - 1) == 0 <==> IsPowerOfTwo(n)
  {
    hide *;
    PowerHalves(n);
    if n % 2 == 1 {
      BitAndSelf(n / 2);
      BitAndCons(n / 2, n / 2, 1, 0);
      assert n == 2 * (n / 2) + 1;
    } else {
      PowerOfTwoGuard(n / 2);
      BitAndCons(n / 2, n / 2 - 1, 0, 1);
      assert n == 2 * (n / 2) && n - 1 == 2 * (n / 2 - 1) + 1;
    }
  }

  lemma PowerHalves(n: nat)
    requires n > 0
    ensures n % 2 == 1 ==> (IsPowerOfTwo(n) <==> n == 1)
    ensures n % 2 == 0 ==> (IsPowerOfTwo(n) <==> IsPowerOfTwo(n / 2))
  {
    assert Pow2(0) == 1;
    if n % 2 == 0 && IsPowerOfTwo(n / 2) {
      var k: nat :| n / 2 == Pow2(k);
      assert n == Pow2(k + 1);
    }
    if IsPowerOfTwo(n) {
      var k: nat :| n == Pow2(k);
      if k > 0 {
        assert n / 2 == Pow2(k - 1);
      }
    }
  }

  /** `n` as its upper bits and its lowest bit. */
  lemma Halve(n: nat) returns (half: nat, bit: nat)
    ensures n == 2 * half + bit && bit < 2
  {
    half, bit := n / 2, n % 2;
  }

  lemma BitAndCons(a: nat, b: nat, x: nat, y: nat)
    requires x < 2 && y < 2
    ensures BitAnd(2 * a + x, 2 * b + y) == 2 * BitAnd(a, b) + (if x == 1 && y == 1 then 1 else 0)
  {
    assert (2 * a + x) / 2 == a && (2 * b + y) / 2 == b;
  }

  lemma {:induction false} Pow2Increasing(j: nat, k: nat)
    ensures j < k ==> Pow2(j) < Pow2(k)
  {
    if k > 0 {
      Pow2Increasing(j, k - 1);
    }
  }

  lemma PopCountCons(m: nat, bit: nat)
    requires bit < 2
    ensures PopCount(2 * m + bit) == PopCount(m) + bit
  {
    assert (2 * m + bit) / 2 == m;
  }

  /** Setting bit `k` in one index leaves `i & j` alone. */
  lemma {:induction false} HighBitOnce(o: nat, j: nat, k: nat)
    requires o < Pow2(k) && j < Pow2(k)
    ensures BitAnd(o + Pow2(k), j) == BitAnd(o, j) == BitAnd(o, j + Pow2(k))
  {
    if k > 0 {
      Pow2Step(k);
      var w := Pow2(k - 1);
      var a, x := Halve(o);
      var b, y := Halve(j);
      HighBitOnce(a, b, k - 1);
      ConsOnce(a, b, w, x, y);
      assert o + Pow2(k) == 2 * (a + w) + x && j + Pow2(k) == 2 * (b + w) + y;
    }
  }

  lemma ConsOnce(a: nat, b: nat, w: nat, x: nat, y: nat)
    requires x < 2 && y < 2 && BitAnd(a + w, b) == BitAnd(a, b) == BitAnd(a, b + w)
    ensures BitAnd(2 * (a + w) + x, 2 * b + y) == BitAnd(2 * a + x, 2 * b + y)
            == BitAnd(2 * a + x, 2 * (b + w) + y)
  {
    hide BitAnd;
    BitAndCons(a, b, x, y);
    BitAndCons(a + w, b, x, y);
    BitAndCons(a, b + w, x, y);
  }

  /** Setting bit `k` in both indices sets one more bit of `i & j`. */
  lemma {:induction false} HighBitTwice(o: nat, j: nat, k: nat)
    requires o < Pow2(k) && j < Pow2(k)
    ensures PopCount(BitAnd(o + Pow2(k), j + Pow2(k))) == PopCount(BitAnd(o, j)) + 1
  {
    hide BitAnd, PopCount;
    if k == 0 {
      LowestBit();
    } else {
      var w := Pow2(k - 1);
      var a, x := Halve(o);
      var b, y := Halve(j);
      HighBitTwice(a, b, k - 1);
      ConsBoth(a, b, w, x, y);
      assert o + Pow2(k) == 2 * (a + w) + x && j + Pow2(k) == 2 * (b + w) + y;
    }
  }

  lemma LowestBit()
    ensures PopCount(BitAnd(1, 1)) == PopCount(BitAnd(0, 0)) + 1
  {
    BitAndCons(0, 0, 1, 1);
    PopCountCons(0, 1);
  }

  lemma ConsBoth(a: nat, b: nat, w: nat, x: nat, y: nat)
    requires x < 2 && y < 2 && PopCount(BitAnd(a + w, b + w)) == PopCount(BitAnd(a, b)) + 1
    ensures PopCount(BitAnd(2 * (a + w) + x, 2 * (b + w) + y)) == PopCount(BitAnd(2 * a + x, 2 * b + y)) + 1
  {
    hide BitAnd, PopCount;
    BitAndCons(a, b, x, y);
    BitAndCons(a + w, b + w, x, y);
    var bit := if x == 1 && y == 1 then 1 else 0;
    PopCountCons(BitAnd(a, b), bit);
    PopCountCons(BitAnd(a + w, b + w), bit);
  }

  // ---------- The dense reference ----------

  predicate Negative(row: nat, column: nat) {
    PopCount(BitAnd(row, column)) % 2 == 1
  }

  lemma SignRule(o: nat, j: nat, k: nat)
    requires o < Pow2(k) && j < Pow2(k)
    ensures Negative(o + Pow2(k), j) == Negative(o, j) == Negative(o, j + Pow2(k))
    ensures Negative(o + Pow2(k), j + Pow2(k)) != Negative(o, j)
  {
    hide BitAnd, PopCount, Pow2;
    HighBitOnce(o, j, k);
    HighBitTwice(o, j, k);
  }

  /** `(-1.0 if parity else 1.0) * value`, written without the multiplication. */
  function Signed(row: nat, column: nat, value: real): real {
    if Negative(row, column) then -value else value
  }

  /** The running `total` of one dense row over the first `m` cells from `lo` on. */
  function Row(x: seq<real>, lo: nat, row: nat, m: nat): real
    requires lo + m <= |x|
  {
    if m == 0 then 0.0 else Row(x, lo, row, m - 1) + Signed(row, m - 1, x[lo + m - 1])
  }

  /** The first `n` appended rows of the dense transform. */
  function DenseRows(x: seq<real>, n: nat): (y: seq<real>)
    ensures |y| == n
    ensures forall row {:trigger y[row]} :: 0 <= row < n ==> y[row] == Row(x, 0, row, |x|)
  {
    if n == 0 then [] else DenseRows(x, n - 1) + [Row(x, 0, n - 1, |x|)]
  }

  function Dense(x: seq<real>): (y: seq<real>)
    ensures |y| == |x|
    ensures forall row {:trigger y[row]} :: 0 <= row < |x| ==> y[row] == Row(x, 0, row, |x|)
  {
    DenseRows(x, |x|)
  }

  // ---------- The butterfly recursion ----------

  /** Cell `o` of the transform of the `Pow2(k)` cells of `x` from `lo` on. */
  ghost function Walsh(x: seq<real>, lo: nat, k: nat, o: nat): real
    requires lo + Pow2(k) <= |x| && o < Pow2(k)
    decreases k
  {
    if k == 0 then x[lo]
    else
      var h := Pow2(k - 1);
      if o < h then Walsh(x, lo, k - 1, o) + Walsh(x, lo + h, k - 1, o)
      else Walsh(x, lo, k - 1, o - h) - Walsh(x, lo + h, k - 1, o - h)
  }

  lemma {:induction false} LowRow(x: seq<real>, lo: nat, k: nat, o: nat, m: nat)
    requires o < Pow2(k) && m <= Pow2(k) && lo + Pow2(k) + m <= |x|
    ensures Row(x, lo, o, Pow2(k) + m) == Row(x, lo, o, Pow2(k)) + Row(x, lo + Pow2(k), o, m)
  {
    hide Negative;
    if m > 0 {
      LowRow(x, lo, k, o, m - 1);
      SignRule(o, m - 1, k);
    }
  }

  lemma {:induction false} HighRow(x: seq<real>, lo: nat, k: nat, o: nat, m: nat)
    requires o < Pow2(k) && m <= Pow2(k) && lo + Pow2(k) + m <= |x|
    ensures Row(x, lo, o + Pow2(k), m) == Row(x, lo, o, m)
    ensures Row(x, lo, o + Pow2(k), Pow2(k) + m)
            == Row(x, lo, o + Pow2(k), Pow2(k)) - Row(x, lo + Pow2(k), o, m)
  {
    hide Negative;
    if m > 0 {
      HighRow(x, lo, k, o, m - 1);
      SignRule(o, m - 1, k);
    }
  }

  /** The butterfly recursion computes the dense sum. */
  lemma {:induction false} WalshIsDense(x: seq<real>, lo: nat, k: nat, o: nat)
    requires lo + Pow2(k) <= |x| && o < Pow2(k)
    ensures Walsh(x, lo, k, o) == Row(x, lo, o, Pow2(k))
    decreases k
  {
    if k == 0 {
      assert Row(x, lo, 0, 1) == Row(x, lo, 0, 0) + Signed(0, 0, x[lo]);
    } else {
      var h := Pow2(k - 1);
      WalshIsDenseStep(x, lo, k, o);
      WalshIsDense(x, lo, k - 1, if o < h then o else o - h);
      WalshIsDense(x, lo + h, k - 1, if o < h then o else o - h);
    }
  }

  lemma WalshIsDenseStep(x: seq<real>, lo: nat, k: nat, o: nat)
    requires k > 0 && lo + Pow2(k) <= |x| && o < Pow2(k)
    ensures var h := Pow2(k - 1);
            Row(x, lo, o, Pow2(k))
            == if o < h then Row(x, lo, o, h) + Row(x, lo + h, o, h)
               else Row(x, lo, o - h, h) - Row(x, lo + h, o - h, h)
  {
    hide Row;
    var h := Pow2(k - 1);
    if o < h {
      LowRow(x, lo, k - 1, o, h);
    } else {
      HighRow(x, lo, k - 1, o - h, h);
    }
  }

  // ---------- Algebra: inverse and norm ----------

  lemma {:induction false} WalshLinear(x: seq<real>, y: seq<real>, z: seq<real>, minus: bool,
                                       lx: nat, lo: nat, k: nat, o: nat)
    requires lx + Pow2(k) <= |x| && lo + Pow2(k) <= |y| && |y| == |z| && o < Pow2(k)
    requires forall i {:trigger x[i]} | lx <= i < lx + Pow2(k) ::
      x[i] == if minus then y[i - lx + lo] - z[i - lx + lo] else y[i - lx + lo] + z[i - lx + lo]
    ensures var p, q := Walsh(y, lo, k, o), Walsh(z, lo, k, o);
            Walsh(x, lx, k, o) == if minus then p - q else p + q
    decreases k
  {
    if k > 0 {
      var h := Pow2(k - 1);
      var o' := if o < h then o else o - h;
      WalshLinear(x, y, z, minus, lx, lo, k - 1, o');
      WalshLinear(x, y, z, minus, lx + h, lo + h, k - 1, o');
    }
  }

  /** `y` holds, from `ly` on, the transform of the cells of `x` from `lx` on. */
  ghost predicate IsTransform(y: seq<real>, ly: nat, x: seq<real>, lx: nat, k: nat) {
    lx + Pow2(k) <= |x| && ly + Pow2(k) <= |y|
    && forall i {:trigger y[i]} | ly <= i < ly + Pow2(k) :: y[i] == Walsh(x, lx, k, i - ly)
  }

  ghost function Half(x: seq<real>, lo: nat, k: nat, n: nat): (p: seq<real>)
    requires lo + Pow2(k) <= |x| && n <= Pow2(k)
    ensures |p| == n && forall i {:trigger p[i]} | 0 <= i < n :: p[i] == Walsh(x, lo, k, i)
  {
    if n == 0 then [] else Half(x, lo, k, n - 1) + [Walsh(x, lo, k, n - 1)]
  }

  function Doubled(v: real, k: nat): real {
    if k == 0 then v else 2.0 * Doubled(v, k - 1)
  }

  lemma {:induction false} DoubledIsTimes(v: real, k: nat)
    ensures Doubled(v, k) == Pow2(k) as real * v
  {
    if k > 0 {
      DoubledIsTimes(v, k - 1);
      TwoTimes(Pow2(k - 1) as real, v);
    }
  }

  lemma TwoTimes(h: real, v: real)
    ensures 2.0 * (h * v) == (2.0 * h) * v
  {
  }

  lemma DoubledStep(v: real, k: nat)
    requires k > 0
    ensures Doubled(v, k) == 2.0 * Doubled(v, k - 1)
  {
  }

  lemma WalshStep(x: seq<real>, lo: nat, k: nat, o: nat)
    requires k > 0 && lo + Pow2(k) <= |x| && o < Pow2(k)
    ensures var h := Pow2(k - 1);
            Walsh(x, lo, k, o)
            == if o < h then Walsh(x, lo, k - 1, o) + Walsh(x, lo + h, k - 1, o)
               else Walsh(x, lo, k - 1, o - h) - Walsh(x, lo + h, k - 1, o - h)
  {
  }

  lemma HalfIsTransform(x: seq<real>, lo: nat, k: nat)
    requires lo + Pow2(k) <= |x|
    ensures IsTransform(Half(x, lo, k, Pow2(k)), 0, x, lo, k)
  {
    hide Walsh, Pow2, Half;
  }

  lemma TransformRange(y: seq<real>, ly: nat, x: seq<real>, lx: nat, k: nat)
    requires IsTransform(y, ly, x, lx, k)
    ensures lx + Pow2(k) <= |x| && ly + Pow2(k) <= |y|
  {
  }

  lemma WalshTwiceOne(y: seq<real>, ly: nat, x: seq<real>, lx: nat)
    requires IsTransform(y, ly, x, lx, 0)
    ensures lx < |x| && ly < |y| && Walsh(y, ly, 0, 0) == Doubled(x[lx], 0)
  {
    assert y[ly] == Walsh(x, lx, 0, 0);
  }

  lemma {:induction false} WalshTwice(y: seq<real>, ly: nat, x: seq<real>, lx: nat, k: nat, o: nat)
    requires IsTransform(y, ly, x, lx, k) && o < Pow2(k)
    ensures Walsh(y, ly, k, o) == Doubled(x[lx + o], k)
    decreases k
  {
    hide Doubled, Walsh;
    if k == 0 {
      WalshTwiceOne(y, ly, x, lx);
    } else {
      Pow2Step(k);
      TransformRange(y, ly, x, lx, k);
      var h := Pow2(k - 1);
      var o' := if o < h then o else o - h;
      var p, q := Half(x, lx, k - 1, h), Half(x, lx + h, k - 1, h);
      HalfIsTransform(x, lx, k - 1);
      HalfIsTransform(x, lx + h, k - 1);
      WalshTwice(p, 0, x, lx, k - 1, o');
      WalshTwice(q, 0, x, lx + h, k - 1, o');
      WalshOfHalves(y, ly, x, lx, k, o');
      WalshStep(y, ly, k, o);
      DoubledStep(x[lx + o], k);
    }
  }

  /** The two halves of a transform are the sum and the difference of the half transforms. */
  lemma WalshOfHalves(y: seq<real>, ly: nat, x: seq<real>, lx: nat, k: nat, o: nat)
    requires k > 0 && IsTransform(y, ly, x, lx, k) && o < Pow2(k - 1)
    ensures var h := Pow2(k - 1);
            var p, q := Half(x, lx, k - 1, h), Half(x, lx + h, k - 1, h);
            var l, r := Walsh(p, 0, k - 1, o), Walsh(q, 0, k - 1, o);
            Walsh(y, ly, k - 1, o) == l + r && Walsh(y, ly + h, k - 1, o) == l - r
  {
    hide *;
    Pow2Step(k);
    TransformRange(y, ly, x, lx, k);
    var h := Pow2(k - 1);
    var p, q := Half(x, lx, k - 1, h), Half(x, lx + h, k - 1, h);
    forall i {:trigger y[i]} | ly <= i < ly + h ensures y[i] == p[i - ly] + q[i - ly] {
      HalvesAt(y, ly, x, lx, k, i - ly);
    }
    WalshLinear(y, p, q, false, ly, 0, k - 1, o);
    forall i {:trigger y[i]} | ly + h <= i < ly + h + h ensures y[i] == p[i - ly - h] - q[i - ly - h] {
      HalvesAt(y, ly, x, lx, k, i - ly - h);
    }
    WalshLinear(y, p, q, true, ly + h, 0, k - 1, o);
  }

  /** The cells of a transform are the sums and differences of the cells of the half transforms. */
  lemma HalvesAt(y: seq<real>, ly: nat, x: seq<real>, lx: nat, k: nat, i: nat)
    requires k > 0 && IsTransform(y, ly, x, lx, k) && i < Pow2(k - 1)
    ensures var h := Pow2(k - 1);
            var p, q := Half(x, lx, k - 1, h), Half(x, lx + h, k - 1, h);
            ly + h + h <= |y| && y[ly + i] == p[i] + q[i] && y[ly + h + i] == p[i] - q[i]
  {
    hide Half;
    var h := Pow2(k - 1);
    assert y[ly + i] == Walsh(x, lx, k, i) && y[ly + h + i] == Walsh(x, lx, k, h + i);
    WalshStep(x, lx, k, i);
    WalshStep(x, lx, k, h + i);
  }

  function SumOfSquares(x: seq<real>, lo: nat, m: nat): real
    requires lo + m <= |x|
  {
    if m == 0 then 0.0 else SumOfSquares(x, lo, m - 1) + x[lo + m - 1] * x[lo + m - 1]
  }

  lemma {:induction false} SumSplit(x: seq<real>, lo: nat, h: nat, m: nat)
    requires lo + h + m <= |x|
    ensures SumOfSquares(x, lo, h + m) == SumOfSquares(x, lo, h) + SumOfSquares(x, lo + h, m)
  {
    if m > 0 {
      SumSplit(x, lo, h, m - 1);
    }
  }

  lemma {:induction false} Parallelogram(y: seq<real>, ly: nat, h: nat, p: seq<real>, q: seq<real>, m: nat)
    requires m <= h == |p| == |q| && ly + h + m <= |y|
    requires forall i {:trigger p[i]} | 0 <= i < m :: y[ly + i] == p[i] + q[i] && y[ly + h + i] == p[i] - q[i]
    ensures SumOfSquares(y, ly, m) + SumOfSquares(y, ly + h, m)
            == 2.0 * SumOfSquares(p, 0, m) + 2.0 * SumOfSquares(q, 0, m)
  {
    if m > 0 {
      Parallelogram(y, ly, h, p, q, m - 1);
      SquareIdentity(p[m - 1], q[m - 1], y[ly + m - 1], y[ly + h + m - 1]);
    }
  }

  lemma SquareIdentity(a: real, b: real, s: real, d: real)
    requires s == a + b && d == a - b
    ensures s * s + d * d == 2.0 * (a * a) + 2.0 * (b * b)
  {
  }

  lemma WalshNormOne(y: seq<real>, ly: nat, x: seq<real>, lx: nat)
    requires IsTransform(y, ly, x, lx, 0)
    ensures lx < |x| && ly < |y| && SumOfSquares(y, ly, 1) == Doubled(SumOfSquares(x, lx, 1), 0)
  {
    assert y[ly] == x[lx];
    assert SumOfSquares(y, ly, 0) == SumOfSquares(x, lx, 0) == 0.0;
  }

  lemma HalvesNorm(y: seq<real>, ly: nat, x: seq<real>, lx: nat, k: nat)
    requires k > 0 && IsTransform(y, ly, x, lx, k)
    ensures var h := Pow2(k - 1);
            && ly + h + h <= |y| && lx + h + h <= |x|
            && SumOfSquares(y, ly, h + h) == 2.0 * SumOfSquares(Half(x, lx, k - 1, h), 0, h)
                                             + 2.0 * SumOfSquares(Half(x, lx + h, k - 1, h), 0, h)
  {
    hide *;
    Pow2Step(k);
    TransformRange(y, ly, x, lx, k);
    var h := Pow2(k - 1);
    var p, q := Half(x, lx, k - 1, h), Half(x, lx + h, k - 1, h);
    forall i {:trigger p[i]} | 0 <= i < h ensures y[ly + i] == p[i] + q[i] && y[ly + h + i] == p[i] - q[i] {
      HalvesAt(y, ly, x, lx, k, i);
    }
    Parallelogram(y, ly, h, p, q, h);
    SumSplit(y, ly, h, h);
  }

  lemma {:induction false} WalshNorm(y: seq<real>, ly: nat, x: seq<real>, lx: nat, k: nat)
    requires IsTransform(y, ly, x, lx, k)
    ensures SumOfSquares(y, ly, Pow2(k)) == Doubled(SumOfSquares(x, lx, Pow2(k)), k)
    decreases k
  {
    if k == 0 {
      WalshNormOne(y, ly, x, lx);
    } else {
      var h := Pow2(k - 1);
      Pow2Step(k);
      HalvesNorm(y, ly, x, lx, k);
      HalfIsTransform(x, lx, k - 1);
      HalfIsTransform(x, lx + h, k - 1);
      WalshNorm(Half(x, lx, k - 1, h), 0, x, lx, k - 1);
      WalshNorm(Half(x, lx + h, k - 1, h), 0, x, lx + h, k - 1);
      SumSplit(x, lx, h, h);
      var a, b := SumOfSquares(x, lx, h), SumOfSquares(x, lx + h, h);
      DoubledSum(a, b, k - 1);
      DoubledStep(a + b, k);
    }
  }

  lemma {:induction false} DoubledSum(a: real, b: real, k: nat)
    ensures Doubled(a + b, k) == Doubled(a, k) + Doubled(b, k)
  {
    if k > 0 {
      DoubledSum(a, b, k - 1);
    }
  }

  lemma DenseIsTransform(x: seq<real>, k: nat)
    requires |x| == Pow2(k)
    ensures IsTransform(Dense(x), 0, x, 0, k)
  {
    forall i | 0 <= i < Pow2(k) ensures Dense(x)[i] == Walsh(x, 0, k, i) {
      WalshIsDense(x, 0, k, i);
    }
  }

  lemma DenseTwiceAt(x: seq<real>, k: nat, i: nat)
    requires |x| == Pow2(k) && i < |x|
    ensures Dense(Dense(x))[i] == |x| as real * x[i]
  {
    hide *;
    var y := Dense(x);
    DenseIsTransform(x, k);
    WalshTwice(y, 0, x, 0, k, i);
    WalshIsDense(y, 0, k, i);
    DoubledIsTimes(x[i], k);
  }

  /** The dense transform, hence the fast one, undoes itself up to the factor `n` and scales energy by `n`. */
  lemma DenseTwice(x: seq<real>, k: nat)
    requires |x| == Pow2(k)
    ensures forall i {:trigger Dense(Dense(x))[i]} | 0 <= i < |x| :: Dense(Dense(x))[i] == |x| as real * x[i]
    ensures SumOfSquares(Dense(x), 0, |x|) == |x| as real * SumOfSquares(x, 0, |x|)
  {
    hide *;
    DenseIsTransform(x, k);
    WalshNorm(Dense(x), 0, x, 0, k);
    DoubledIsTimes(SumOfSquares(x, 0, |x|), k);
    forall i | 0 <= i < |x| ensures Dense(Dense(x))[i] == |x| as real * x[i] {
      DenseTwiceAt(x, k, i);
    }
  }

  /** Every value divided by `scale`. */
  function Scaled(x: seq<real>, scale: real): (y: seq<real>)
    requires scale > 0.0
    ensures |y| == |x|
    ensures forall i {:trigger y[i]} :: 0 <= i < |x| ==> y[i] == x[i] / scale
  {
    if x == [] then [] else Scaled(x[..|x| - 1], scale) + [x[|x| - 1] / scale]
  }

  /** The orthonormal form: the dense transform with its single scale factor. */
  function Orthonormal(x: seq<real>, scale: real): (y: seq<real>)
    requires scale > 0.0
    ensures |y| == |x|
  {
    Scaled(Dense(x), scale)
  }

  lemma {:induction false} RowScaled(x: seq<real>, scale: real, row: nat, m: nat)
    requires scale > 0.0 && m <= |x|
    ensures Row(Scaled(x, scale), 0, row, m) == Row(x, 0, row, m) / scale
  {
    if m > 0 {
      RowScaled(x, scale, row, m - 1);
      Quotient(Row(x, 0, row, m - 1), x[m - 1], scale);
    } else {
      assert Row(x, 0, row, 0) == 0.0;
    }
  }

  lemma Quotient(a: real, v: real, scale: real)
    requires scale > 0.0
    ensures a / scale + v / scale == (a + v) / scale && a / scale - v / scale == (a - v) / scale
  {
  }

  lemma {:induction false} SumScaled(x: seq<real>, scale: real, m: nat)
    requires scale > 0.0 && m <= |x|
    ensures SumOfSquares(Scaled(x, scale), 0, m) * (scale * scale) == SumOfSquares(x, 0, m)
  {
    hide Scaled, SumOfSquares;
    var y := Scaled(x, scale);
    SumStep(x, m);
    SumStep(y, m);
    if m > 0 {
      SumScaled(x, scale, m - 1);
      SquareScaled(SumOfSquares(y, 0, m - 1), x[m - 1], y[m - 1], scale);
    }
  }

  lemma SumStep(x: seq<real>, m: nat)
    requires m <= |x|
    ensures SumOfSquares(x, 0, m) == if m == 0 then 0.0 else SumOfSquares(x, 0, m - 1) + x[m - 1] * x[m - 1]
  {
  }

  lemma SquareScaled(a: real, u: real, v: real, scale: real)
    requires scale > 0.0 && v == u / scale
    ensures (a + v * v) * (scale * scale) == a * (scale * scale) + u * u
  {
    assert v * scale == u;
    assert (v * v) * (scale * scale) == (v * scale) * (v * scale);
  }

  lemma OrthonormalTwiceAt(x: seq<real>, k: nat, scale: real, i: nat)
    requires |x| == Pow2(k) && scale > 0.0 && scale * scale == |x| as real && i < |x|
    ensures Orthonormal(Orthonormal(x, scale), scale)[i] == x[i]
  {
    hide Dense, Row, Scaled, Pow2;
    var d := Dense(x);
    DenseTwiceAt(x, k, i);
    RowScaled(d, scale, i, |x|);
    Cancel(Dense(d)[i], x[i], scale);
  }

  /** The orthonormal transform is its own inverse and preserves the norm. */
  lemma OrthonormalIsUnitary(x: seq<real>, k: nat, scale: real)
    requires |x| == Pow2(k) && scale > 0.0 && scale * scale == |x| as real
    ensures Orthonormal(Orthonormal(x, scale), scale) == x
    ensures SumOfSquares(Orthonormal(x, scale), 0, |x|) == SumOfSquares(x, 0, |x|)
  {
    hide Dense, Scaled, SumOfSquares, Pow2;
    forall i | 0 <= i < |x| ensures Orthonormal(Orthonormal(x, scale), scale)[i] == x[i] {
      OrthonormalTwiceAt(x, k, scale, i);
    }
    DenseTwice(x, k);
    SumScaled(Dense(x), scale, |x|);
    SameFactor(SumOfSquares(Orthonormal(x, scale), 0, |x|), SumOfSquares(x, 0, |x|), |x| as real, scale);
  }

  lemma SameFactor(s: real, t: real, n: real, scale: real)
    requires n > 0.0 && scale * scale == n && s * (scale * scale) == n * t
    ensures s == t
  {
  }

  lemma Cancel(u: real, v: real, scale: real)
    requires scale > 0.0 && u == (scale * scale) * v
    ensures (u / scale) / scale == v
  {
    assert u == (scale * v) * scale;
    assert u / scale == scale * v;
  }

  // ---------- The in-place butterfly ----------

  /** The start of the aligned block of width `Pow2(j)` that holds cell `i`. */
  ghost function Base(i: nat, j: nat): (b: nat)
    ensures b <= i < b + Pow2(j)
  {
    if j == 0 then i else 2 * Base(i / 2, j - 1)
  }

  lemma {:induction false} BaseOfOffset(start: nat, j: nat, o: nat)
    requires Base(start, j) == start && o < Pow2(j)
    ensures Base(start + o, j) == start
  {
    if j > 0 {
      BaseOfOffset(start / 2, j - 1, o / 2);
      assert start % 2 == 0 && (start + o) / 2 == start / 2 + o / 2;
    }
  }

  lemma {:induction false} NextBase(start: nat, j: nat)
    requires Base(start, j) == start
    ensures Base(start + Pow2(j), j) == start + Pow2(j)
  {
    if j > 0 {
      NextBase(start / 2, j - 1);
      assert (start + Pow2(j)) / 2 == start / 2 + Pow2(j - 1);
    }
  }

  /** A multiple of the wider block width is a multiple of the narrower one. */
  lemma {:induction false} NarrowBase(start: nat, j: nat)
    requires Base(start, j + 1) == start
    ensures Base(start, j) == start
  {
    if j > 0 {
      assert Base(start, j + 1) == 2 * Base(start / 2, j);
      NarrowBase(start / 2, j - 1);
    }
  }

  lemma {:induction false} BlockFits(i: nat, j: nat, k: nat)
    requires i < Pow2(k) && j <= k
    ensures Base(i, j) + Pow2(j) <= Pow2(k)
  {
    if j > 0 {
      BlockFits(i / 2, j - 1, k - 1);
    }
  }

  /** Cell `i` after `j` passes: its aligned block of width `Pow2(j)` has been transformed. */
  ghost function Cell(x: seq<real>, k: nat, j: nat, i: nat): real
    requires |x| == Pow2(k) && j <= k && i < |x|
  {
    BlockFits(i, j, k);
    Walsh(x, Base(i, j), j, i - Base(i, j))
  }

  /** One butterfly of pass `j` computes two cells of the next pass. */
  lemma CellStep(x: seq<real>, k: nat, j: nat, start: nat, o: nat)
    requires |x| == Pow2(k) && j < k && Base(start, j + 1) == start && start < |x| && o < Pow2(j)
    ensures start + Pow2(j + 1) <= |x|
    ensures var w := Pow2(j);
            var l, r := Cell(x, k, j, start + o), Cell(x, k, j, start + o + w);
            Cell(x, k, j + 1, start + o) == l + r && Cell(x, k, j + 1, start + o + w) == l - r
  {
    hide Base;
    var w := Pow2(j);
    BlockFits(start, j + 1, k);
    NarrowBase(start, j);
    NextBase(start, j);
    BaseOfOffset(start, j, o);
    BaseOfOffset(start + w, j, o);
    BaseOfOffset(start, j + 1, o);
    BaseOfOffset(start, j + 1, o + w);
    assert start + w + o == start + o + w;
  }

  /** The innermost loop: the butterflies of one aligned pair of half-blocks. */
  method ButterflyBlock(a: array<real>, start: nat, width: nat, ghost x: seq<real>, ghost k: nat, ghost j: nat)
    returns (ghost butterflies: nat)
    requires |x| == a.Length == Pow2(k) && j < k && width == Pow2(j)
    requires Base(start, j + 1) == start && start < a.Length
    requires forall i {:trigger a[i]} | 0 <= i < a.Length :: a[i] == Cell(x, k, if i < start then j + 1 else j, i)
    modifies a
    ensures forall i {:trigger a[i]} | 0 <= i < a.Length ::
      a[i] == Cell(x, k, if i < start + 2 * width then j + 1 else j, i)
    ensures butterflies == width
  {
    hide Cell;
    CellStep(x, k, j, start, 0);
    butterflies := 0;
    for offset := 0 to width
      invariant butterflies == offset
      invariant forall i {:trigger a[i]} | 0 <= i < a.Length ::
        a[i] == Cell(x, k, if i < start + offset || start + width <= i < start + width + offset then j + 1 else j, i)
    {
      var leftIndex := start + offset;
      var rightIndex := leftIndex + width;
      var left, right := a[leftIndex], a[rightIndex];
      CellStep(x, k, j, start, offset);
      a[leftIndex] := left + right;
      a[rightIndex] := left - right;
      butterflies := butterflies + 1;
    }
  }

  /** The middle loop: one pass over the aligned blocks. */
  method ButterflyPass(a: array<real>, width: nat, ghost x: seq<real>, ghost k: nat, ghost j: nat)
    returns (ghost butterflies: nat)
    requires |x| == a.Length == Pow2(k) && j < k && width == Pow2(j)
    requires forall i {:trigger a[i]} | 0 <= i < a.Length :: a[i] == Cell(x, k, j, i)
    modifies a
    ensures forall i {:trigger a[i]} | 0 <= i < a.Length :: a[i] == Cell(x, k, j + 1, i)
    ensures 2 * butterflies == a.Length
  {
    hide Base;
    var start := 0;
    butterflies := 0;
    BaseZero(j + 1);
    while start < a.Length
      invariant start <= a.Length && Base(start, j + 1) == start
      invariant forall i {:trigger a[i]} | 0 <= i < a.Length :: a[i] == Cell(x, k, if i < start then j + 1 else j, i)
      invariant 2 * butterflies == start
    {
      ghost var count := ButterflyBlock(a, start, width, x, k, j);
      BlockFits(start, j + 1, k);
      NextBase(start, j + 1);
      butterflies := butterflies + count;
      start := start + 2 * width;
    }
  }

  lemma {:induction false} BaseZero(j: nat)
    ensures Base(0, j) == 0
  {
    if j > 0 {
      BaseZero(j - 1);
    }
  }

  lemma FullCell(x: seq<real>, k: nat, i: nat)
    requires |x| == Pow2(k) && i < |x|
    ensures Cell(x, k, 0, i) == x[i] && Cell(x, k, k, i) == Dense(x)[i]
  {
    BaseZero(k);
    BaseOfOffset(0, k, i);
    WalshIsDense(x, 0, k, i);
  }

  /** The outer loop: `k` passes turn the vector into its dense transform. */
  method Butterflies(a: array<real>, ghost k: nat) returns (ghost butterflies: nat)
    requires a.Length == Pow2(k)
    modifies a
    ensures a[..] == Dense(old(a[..]))
    ensures 2 * butterflies == a.Length * k
  {
    hide Cell;
    ghost var x := a[..];
    forall i | 0 <= i < |x| ensures x[i] == Cell(x, k, 0, i) && Cell(x, k, k, i) == Dense(x)[i] {
      FullCell(x, k, i);
    }
    var width := 1;
    butterflies := 0;
    ghost var j: nat := 0;
    while width < a.Length
      invariant j <= k && width == Pow2(j)
      invariant forall i {:trigger a[i]} | 0 <= i < a.Length :: a[i] == Cell(x, k, j, i)
      invariant 2 * butterflies == a.Length * j
      decreases k - j
    {
      ghost var count := ButterflyPass(a, width, x, k, j);
      assert a.Length * (j + 1) == a.Length * j + a.Length;
      butterflies := butterflies + count;
      width := 2 * width;
      j := j + 1;
    }
    Pow2Increasing(j, k);
  }

  datatype Normalization = Unscaled | Unitary

  /**
   The transform itself. A vector whose length is not a power of two is refused; otherwise the result is the
   dense sum (divided by `scale` in the unitary form), and the loop nest does `n / 2 * log2(n)` butterflies.
   */
  method Transform(values: seq<real>, normalization: Normalization, scale: real)
    returns (result: Result<seq<real>, string>, ghost butterflies: nat)
    requires |values| > 0 ==> scale > 0.0 && scale * scale == |values| as real
    ensures result.Success? <==> IsPowerOfTwo(|values|)
    ensures result.Success? && normalization == Unscaled ==> result.value == Dense(values)
    ensures result.Success? && normalization == Unitary ==> result.value == Orthonormal(values, scale)
    ensures forall k: nat | |values| == Pow2(k) :: 2 * butterflies == |values| * k
  {
    hide Dense, Scaled;
    var size := |values|;
    if size > 0 { PowerOfTwoGuard(size); }
    if size == 0 || BitAnd(size, size - 1) != 0 {
      return Failure("values length must be a non-empty power of two"), 0;
    }
    ghost var k: nat :| size == Pow2(k);
    var transformed := new real[size](i requires 0 <= i < size => values[i]);
    assert transformed[..] == values;
    butterflies := Butterflies(transformed, k);
    forall i: nat | size == Pow2(i) ensures 2 * butterflies == size * i {
      Pow2Increasing(i, k);
      Pow2Increasing(k, i);
    }
    if normalization == Unitary {
      result := Success(Scaled(transformed[..], scale));
    } else {
      result := Success(transformed[..]);
    }
  }
}
