/** Which changes of three words Fletcher-4 misses (core/src/checksum.rs, fletcher4). */
module ThreeWords {
  import opened Arithmetic
  import opened Bytes
  import opened Checksum

  // ---- the four sums after three changes -----------------------------------

  /** How sum `p` moves when the words of weights `a`, `b`, `c` change by `d`, `e`, `f`. */
  function Shift(p: nat, a: nat, b: nat, c: nat, d: int, e: int, f: int): int {
    Weight(p, a) * d + Weight(p, b) * e + Weight(p, c) * f
  }

  lemma ThreeUpdates(p: nat, xs: seq<nat>, i: nat, j: nat, k: nat, u: nat, v: nat, w: nat)
    requires i < j < k < |xs|
    ensures WSum(p, xs[i := u][j := v][k := w])
         == WSum(p, xs) + Shift(p, |xs| - i, |xs| - j, |xs| - k, u - xs[i], v - xs[j], w - xs[k])
  {
    hide WSum, Weight;
    WSumUpdate(p, xs, i, u);
    WSumUpdate(p, xs[i := u], j, v);
    WSumUpdate(p, xs[i := u][j := v], k, w);
  }

  lemma TimesDifference(n: int, w1: int, w0: int, q: int, m: int, d: int)
    requires n * w1 == n * w0 + q * m
    ensures n * (w1 * d) == n * (w0 * d) + (q * d) * m
  {
    Associate(n, w1, d);
    Associate(n, w0, d);
    Distribute(d, n * w0, q * m);
    Associate(q, m, d);
    Associate(q, d, m);
  }

  /** Twice a triangular weight, written from a smaller one. */
  lemma SecondWeight(c: nat, q: nat, d: int)
    ensures 2 * (Weight(2, c + q) * d) == 2 * (Weight(2, c) * d) + (q * d) * (2 * c + 1 + q)
  {
    hide Weight;
    WeightClosed(c + q);
    WeightClosed(c);
    SquareIs(c, q);
    TimesDifference(2, Weight(2, c + q), Weight(2, c), q, 2 * c + 1 + q, d);
  }

  lemma SquareIs(c: nat, q: nat)
    ensures (c + q) * (c + q + 1) == c * (c + 1) + q * (2 * c + 1 + q)
  {
  }

  function Cubic(c: nat, q: nat): int { 3 * c * c + 6 * c + 2 + q * (3 * c + 3) + q * q }

  /** Six times a tetrahedral weight, written from a smaller one. */
  lemma ThirdWeight(c: nat, q: nat, d: int)
    ensures 6 * (Weight(3, c + q) * d) == 6 * (Weight(3, c) * d) + (q * d) * Cubic(c, q)
  {
    hide Weight, Cubic;
    WeightClosed(c + q);
    WeightClosed(c);
    CubicIs(c, q);
    TimesDifference(6, Weight(3, c + q), Weight(3, c), q, Cubic(c, q), d);
  }

  lemma CubicIs(c: nat, q: nat)
    ensures (c + q) * (c + q + 1) * (c + q + 2) == c * (c + 1) * (c + 2) + q * Cubic(c, q)
  {
  }

  lemma CubicDifference(c: nat, q: nat, r: nat)
    ensures Cubic(c, q) - Cubic(c, r) == (q - r) * (3 * c + 3 + q + r)
  {
  }

  /** Changes that keep the first two sums move the other two by multiples of one number. */
  lemma HigherShifts(c: nat, q: nat, r: nat, d: int, e: int)
    requires q * d + r * e == 0
    ensures 2 * Shift(2, c + q, c + r, c, d, e, -d - e) == (q * d) * (q - r)
    ensures 6 * Shift(3, c + q, c + r, c, d, e, -d - e) == (q * d) * (q - r) * (3 * c + 3 + q + r)
  {
    hide Weight, Cubic;
    SecondWeight(c, q, d);
    SecondWeight(c, r, e);
    Spread(Weight(2, c), d, e);
    Spread(Weight(2, c), -(d + e), d + e);
    var x := q * d;
    assert (r * e) == -x;
    assert x * (2 * c + 1 + q) + (-x) * (2 * c + 1 + r) == x * (q - r);
    ThirdWeight(c, q, d);
    ThirdWeight(c, r, e);
    Spread(Weight(3, c), d, e);
    Spread(Weight(3, c), -(d + e), d + e);
    CubicDifference(c, q, r);
    Spread(x, Cubic(c, q), -Cubic(c, r));
    Associate(x, q - r, 3 * c + 3 + q + r);
    assert (-x) * Cubic(c, r) == x * (-Cubic(c, r));
  }

  // ---- modulo 2^64 ---------------------------------------------------------

  /** 2^64 is one more than a multiple of three, so dividing by three keeps its multiples. */
  lemma DivideByThree(x: int)
    requires 3 * x % TWO64 == 0
    ensures x % TWO64 == 0
  {
    var y := 3 * x / TWO64;
    assert 3 * x == y * TWO64;
    assert x == (x - 0x5555_5555_5555_5555 * y) * TWO64;
  }

  lemma MultipleTimes(x: int, m: int)
    requires x % TWO64 == 0
    ensures x * m % TWO64 == 0
  {
    var y := x / TWO64;
    assert x * m == (y * m) * TWO64;
  }

  /** The last two sums come back to the same residues together. */
  lemma HigherResidues(s2: int, s3: int, g: int, m: int)
    requires 2 * s2 == g && 6 * s3 == g * m
    ensures s2 % TWO64 == 0 && s3 % TWO64 == 0 <==> g % (2 * TWO64) == 0
  {
    assert g * m == 2 * (s2 * m);
    if s2 % TWO64 == 0 {
      MultipleTimes(s2, m);
      DivideByThree(s3);
    }
  }

  lemma LowShiftsAre(c: nat, q: nat, r: nat, d: int, e: int, f: int)
    ensures Shift(0, c + q, c + r, c, d, e, f) == d + e + f
    ensures Shift(1, c + q, c + r, c, d, e, f) == c * (d + e + f) + (q * d + r * e)
  {
    hide Weight;
    WeightZero(c + q);
    WeightZero(c + r);
    WeightZero(c);
    WeightClosed(c + q);
    WeightClosed(c + r);
    WeightClosed(c);
    Distribute(d, c, q);
    Distribute(e, c, r);
    Spread(c, d, e);
    Spread(c, d + e, f);
  }

  /** On a block of up to 32 MiB the first two sums cannot wrap. */
  lemma LowShifts(c: nat, q: nat, r: nat, d: int, e: int, f: int)
    requires r < q && c + q <= MAX_WORDS
    requires -TWO32 < d < TWO32 && -TWO32 < e < TWO32 && -TWO32 < f < TWO32
    requires Shift(0, c + q, c + r, c, d, e, f) % TWO64 == 0 && Shift(1, c + q, c + r, c, d, e, f) % TWO64 == 0
    ensures d + e + f == 0 && q * d + r * e == 0
  {
    hide Shift;
    LowShiftsAre(c, q, r, d, e, f);
    SmallMultiple(d + e + f);
    Within(q, d);
    Within(r, e);
    SmallMultiple(q * d + r * e);
  }

  lemma Within(k: nat, d: int)
    requires k <= MAX_WORDS && -TWO32 < d < TWO32
    ensures -0x80_0000_0000_0000 <= k * d <= 0x80_0000_0000_0000
  {
    Spread(k, TWO32, -d);
    Spread(k, TWO32, d);
    MulNonneg(k, TWO32 - d);
    MulNonneg(k, TWO32 + d);
  }

  // ---- exactly the missed changes ------------------------------------------

  /** Words `i`, `j`, `k` change by `d`, `e`, `f` in a way the four sums cannot see. */
  predicate Unseen(i: nat, j: nat, k: nat, d: int, e: int, f: int) {
    d + e + f == 0 && (k - i) * d + (k - j) * e == 0 && d * (j - i) * (k - i) % (2 * TWO64) == 0
  }

  /** All four sums come back to the same residues. */
  predicate ShiftsVanish(a: nat, b: nat, c: nat, d: int, e: int, f: int) {
    Shift(0, a, b, c, d, e, f) % TWO64 == 0 && Shift(1, a, b, c, d, e, f) % TWO64 == 0 &&
    Shift(2, a, b, c, d, e, f) % TWO64 == 0 && Shift(3, a, b, c, d, e, f) % TWO64 == 0
  }

  lemma Moved(s: int, t: int, shift: int)
    requires t == s + shift
    ensures t % TWO64 == s % TWO64 <==> shift % TWO64 == 0
  {
    SameResidue(t, s);
  }

  lemma SumsAgree(xs: seq<nat>, i: nat, j: nat, k: nat, u: nat, v: nat, w: nat)
    requires i < j < k < |xs|
    ensures Fletcher4Sums(xs[i := u][j := v][k := w]) == Fletcher4Sums(xs)
       <==> ShiftsVanish(|xs| - i, |xs| - j, |xs| - k, u - xs[i], v - xs[j], w - xs[k])
  {
    hide WSum, Shift;
    var ys := xs[i := u][j := v][k := w];
    var a, b, c, d, e, f := |xs| - i, |xs| - j, |xs| - k, u - xs[i], v - xs[j], w - xs[k];
    ThreeUpdates(0, xs, i, j, k, u, v, w);
    ThreeUpdates(1, xs, i, j, k, u, v, w);
    ThreeUpdates(2, xs, i, j, k, u, v, w);
    ThreeUpdates(3, xs, i, j, k, u, v, w);
    Moved(WSum(0, xs), WSum(0, ys), Shift(0, a, b, c, d, e, f));
    Moved(WSum(1, xs), WSum(1, ys), Shift(1, a, b, c, d, e, f));
    Moved(WSum(2, xs), WSum(2, ys), Shift(2, a, b, c, d, e, f));
    Moved(WSum(3, xs), WSum(3, ys), Shift(3, a, b, c, d, e, f));
  }

  /** Once the first two sums agree outright, the other two agree exactly when the second
      moment is a multiple of 2^65. */
  lemma HigherVanish(c: nat, q: nat, r: nat, d: int, e: int, f: int)
    requires d + e + f == 0 && q * d + r * e == 0
    ensures ShiftsVanish(c + q, c + r, c, d, e, f) <==> d * (q - r) * q % (2 * TWO64) == 0
  {
    hide Shift;
    LowShiftsAre(c, q, r, d, e, f);
    assert c * (d + e + f) == 0;
    HigherShifts(c, q, r, d, e);
    MomentIs(d, q, q - r);
    HigherResidues(Shift(2, c + q, c + r, c, d, e, f), Shift(3, c + q, c + r, c, d, e, f),
                   d * (q - r) * q, 3 * c + 3 + q + r);
  }

  lemma MomentIs(d: int, q: int, p: int)
    ensures d * p * q == (q * d) * p
  {
  }

  /** On any block, however long, an unseen change leaves the checksum alone. */
  lemma UnseenIsMissed(xs: seq<nat>, i: nat, j: nat, k: nat, u: nat, v: nat, w: nat)
    requires i < j < k < |xs| && Unseen(i, j, k, u - xs[i], v - xs[j], w - xs[k])
    ensures Fletcher4Sums(xs[i := u][j := v][k := w]) == Fletcher4Sums(xs)
  {
    hide Fletcher4Sums, ShiftsVanish;
    SumsAgree(xs, i, j, k, u, v, w);
    HigherVanish(|xs| - k, k - i, k - j, u - xs[i], v - xs[j], w - xs[k]);
  }

  /** A change of three words of a block of up to 32 MiB is missed if and only if the
      differences cancel, balance about the third word, and their second moment is a
      multiple of 2^65. */
  lemma ThreeWordsExactly(xs: seq<nat>, i: nat, j: nat, k: nat, u: nat, v: nat, w: nat)
    requires i < j < k < |xs| <= MAX_WORDS && u < TWO32 && v < TWO32 && w < TWO32
    requires xs[i] < TWO32 && xs[j] < TWO32 && xs[k] < TWO32
    ensures Fletcher4Sums(xs[i := u][j := v][k := w]) == Fletcher4Sums(xs)
       <==> Unseen(i, j, k, u - xs[i], v - xs[j], w - xs[k])
  {
    hide Fletcher4Sums, Shift;
    var c, q, r, d, e, f := |xs| - k, k - i, k - j, u - xs[i], v - xs[j], w - xs[k];
    SumsAgree(xs, i, j, k, u, v, w);
    if ShiftsVanish(c + q, c + r, c, d, e, f) {
      LowShifts(c, q, r, d, e, f);
    }
    if d + e + f == 0 && q * d + r * e == 0 {
      HigherVanish(c, q, r, d, e, f);
    }
  }

  /** In a block of at most 256 KiB no change of three words is missed. */
  lemma ThreeWordsDetected(xs: seq<nat>, i: nat, j: nat, k: nat, u: nat, v: nat, w: nat)
    requires i < j < k < |xs| <= 0x1_0000 && u < TWO32 && v < TWO32 && w < TWO32
    requires xs[i] < TWO32 && xs[j] < TWO32 && xs[k] < TWO32
    ensures Fletcher4Sums(xs[i := u][j := v][k := w]) == Fletcher4Sums(xs)
        ==> u == xs[i] && v == xs[j] && w == xs[k]
  {
    hide Unseen;
    ThreeWordsExactly(xs, i, j, k, u, v, w);
    if Unseen(i, j, k, u - xs[i], v - xs[j], w - xs[k]) {
      NearChangesSeen(i, j, k, u - xs[i], v - xs[j], w - xs[k]);
    }
  }

  lemma NearChangesSeen(i: nat, j: nat, k: nat, d: int, e: int, f: int)
    requires i < j < k < 0x1_0000 && -TWO32 < d < TWO32 && Unseen(i, j, k, d, e, f)
    ensures d == 0 && e == 0 && f == 0
  {
    var q := (j - i) * (k - i);
    Associate(d, j - i, k - i);
    NearProduct(j - i, k - i);
    SmallSecondMoment(d, q);
    assert (k - j) * e == 0;
    NonzeroFactor(k - j, e);
  }

  lemma NearProduct(p: nat, q: nat)
    requires 0 < p < q < 0x1_0000
    ensures 0 < p * q <= 0x1_0000_0000
  {
    MulNonneg(p - 1, q - 1);
    MulNonneg(0x1_0000 - p, q);
  }

  lemma NonzeroFactor(k: nat, e: int)
    requires k > 0 && k * e == 0
    ensures e == 0
  {
    if e > 0 { AtLeast(e, k); Associate(1, k, e); }
    if e < 0 { AtMost(e, k); }
  }

  lemma SmallSecondMoment(d: int, q: nat)
    requires 0 < q <= TWO32 && -TWO32 < d < TWO32 && d * q % (2 * TWO64) == 0
    ensures d == 0
  {
    if d > 0 { MulNonneg(d, TWO32 - q); AtLeast(d, q); }
    if d < 0 { MulNonneg(-d, TWO32 - q); AtMost(d, q); }
  }

  /** Three words 8 MiB apart, changed by t, -2t and t with t = 2^22: the sums stay. */
  lemma ThreeWordsMissed(xs: seq<nat>, i: nat)
    requires i + 0x40_0000 < |xs|
    requires xs[i] + 0x40_0000 < TWO32 && xs[i + 0x40_0000] + 0x40_0000 < TWO32
    requires 0x80_0000 <= xs[i + 0x20_0000]
    ensures var t, h := 0x40_0000, 0x20_0000;
      var ys := xs[i := xs[i] + t][i + h := xs[i + h] - 2 * t][i + 2 * h := xs[i + 2 * h] + t];
      ys != xs && Fletcher4Sums(ys) == Fletcher4Sums(xs)
  {
    hide Fletcher4Sums;
    var t, h := 0x40_0000, 0x20_0000;
    UnseenIsMissed(xs, i, i + h, i + 2 * h, xs[i] + t, xs[i + h] - 2 * t, xs[i + 2 * h] + t);
    assert xs[i := xs[i] + t][i + h := xs[i + h] - 2 * t][i + 2 * h := xs[i + 2 * h] + t][i] != xs[i];
  }
}
