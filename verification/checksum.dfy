/** Fletcher checksums (core/src/checksum.rs): the running sums against their
    closed forms, the concatenation law, and what corruption they detect. */
module Checksum {
  import opened Arithmetic
  import opened Bytes

  /** Four native 64-bit words, as `blk_cksum` stores them. */
  datatype Cksum = Cksum(w0: u64, w1: u64, w2: u64, w3: u64)

  // ---- closed form --------------------------------------------------------

  /** The binomial coefficient of (k + p - 1) over p, by Pascal's rule. */
  function Weight(p: nat, k: nat): nat {
    if p == 0 then 1 else if k == 0 then 0 else Weight(p, k - 1) + Weight(p - 1, k)
  }

  lemma WeightZero(k: nat)
    ensures Weight(0, k) == 1
  {
  }

  /** The weights in closed form: k, k(k+1)/2 and k(k+1)(k+2)/6. */
  lemma {:induction false} WeightClosed(k: nat)
    ensures Weight(1, k) == k
    ensures 2 * Weight(2, k) == k * (k + 1)
    ensures 6 * Weight(3, k) == k * (k + 1) * (k + 2)
  {
    if k == 0 {
    } else {
      WeightClosed(k - 1);
      RisingFactorials(k);
    }
  }

  lemma RisingFactorials(k: int)
    ensures k * (k + 1) == (k - 1) * k + 2 * k
    ensures k * (k + 1) * (k + 2) == (k - 1) * k * (k + 1) + 3 * (k * (k + 1))
  {
  }

  /** The sum of `Weight(p, |ws| - i) * ws[i]` over all positions `i`. */
  function WSum(p: nat, ws: seq<nat>): nat {
    if ws == [] then 0 else Weight(p, |ws|) * ws[0] + WSum(p, ws[1..])
  }

  /** One turn of the running sums: sum p grows by the already updated sum p - 1. */
  lemma {:induction false} WSumAppend(p: nat, ws: seq<nat>, w: nat)
    ensures WSum(p, ws + [w]) == WSum(p, ws) + if p == 0 then w else WSum(p - 1, ws + [w])
  {
    var us := ws + [w];
    if ws == [] {
      assert us[1..] == [];
      assert p > 0 ==> Weight(p, 1) == Weight(p, 0) + Weight(p - 1, 1);
    } else {
      assert us[1..] == ws[1..] + [w];
      WSumAppend(p, ws[1..], w);
      if p > 0 {
        assert Weight(p, |us|) == Weight(p, |ws|) + Weight(p - 1, |us|);
        Distribute(ws[0], Weight(p, |ws|), Weight(p - 1, |us|));
      }
    }
  }

  /** Vandermonde: how a weight shifts when `m` words follow. */
  lemma {:induction false} WeightShift(k: nat, m: nat)
    ensures Weight(1, k + m) == Weight(1, k) + m
    ensures Weight(2, k + m) == Weight(2, k) + m * Weight(1, k) + Weight(2, m)
    ensures Weight(3, k + m) ==
            Weight(3, k) + m * Weight(2, k) + Weight(2, m) * Weight(1, k) + Weight(3, m)
  {
    if k == 0 {
      WeightClosed(m);
    } else {
      hide Weight;
      WeightShift(k - 1, m);
      WeightPascal(k);
      WeightPascal(k + m);
      Spread(m, Weight(1, k - 1), 1);
      Spread(m, Weight(2, k - 1), Weight(1, k));
      Spread(Weight(2, m), Weight(1, k - 1), 1);
    }
  }

  lemma WeightPascal(k: nat)
    requires k > 0
    ensures Weight(1, k) == Weight(1, k - 1) + 1
    ensures Weight(2, k) == Weight(2, k - 1) + Weight(1, k)
    ensures Weight(3, k) == Weight(3, k - 1) + Weight(2, k)
  {
  }

  /** The exact sums of a concatenation from those of its two parts. */
  lemma {:induction false} WSumConcat(xs: seq<nat>, ys: seq<nat>)
    ensures WSum(0, xs + ys) == WSum(0, xs) + WSum(0, ys)
    ensures WSum(1, xs + ys) == WSum(1, xs) + |ys| * WSum(0, xs) + WSum(1, ys)
    ensures WSum(2, xs + ys) == WSum(2, xs) + |ys| * WSum(1, xs) + Weight(2, |ys|) * WSum(0, xs) + WSum(2, ys)
    ensures WSum(3, xs + ys) == WSum(3, xs) + |ys| * WSum(2, xs) + Weight(2, |ys|) * WSum(1, xs)
                                + Weight(3, |ys|) * WSum(0, xs) + WSum(3, ys)
  {
    if xs == [] {
      assert xs + ys == ys;
    } else {
      WSumConcat(xs[1..], ys);
      WSumConcatStep(xs, ys);
    }
  }

  lemma WSumHead(ws: seq<nat>)
    requires ws != []
    ensures forall p: nat :: WSum(p, ws) == Weight(p, |ws|) * ws[0] + WSum(p, ws[1..])
    ensures Weight(0, |ws|) == 1
  {
  }

  lemma WSumConcatStep(xs: seq<nat>, ys: seq<nat>)
    requires xs != []
    requires var ts := xs[1..]; var m := |ys|;
      && WSum(0, ts + ys) == WSum(0, ts) + WSum(0, ys)
      && WSum(1, ts + ys) == WSum(1, ts) + m * WSum(0, ts) + WSum(1, ys)
      && WSum(2, ts + ys) == WSum(2, ts) + m * WSum(1, ts) + Weight(2, m) * WSum(0, ts) + WSum(2, ys)
      && WSum(3, ts + ys) == WSum(3, ts) + m * WSum(2, ts) + Weight(2, m) * WSum(1, ts)
                             + Weight(3, m) * WSum(0, ts) + WSum(3, ys)
    ensures WSum(0, xs + ys) == WSum(0, xs) + WSum(0, ys)
    ensures WSum(1, xs + ys) == WSum(1, xs) + |ys| * WSum(0, xs) + WSum(1, ys)
    ensures WSum(2, xs + ys) == WSum(2, xs) + |ys| * WSum(1, xs) + Weight(2, |ys|) * WSum(0, xs) + WSum(2, ys)
    ensures WSum(3, xs + ys) == WSum(3, xs) + |ys| * WSum(2, xs) + Weight(2, |ys|) * WSum(1, xs)
                                + Weight(3, |ys|) * WSum(0, xs) + WSum(3, ys)
  {
    hide WSum, Weight;
    var x, m, n, ts := xs[0], |ys|, |xs|, xs[1..];
    assert (xs + ys)[1..] == ts + ys && (xs + ys)[0] == x;
    WSumHead(xs);
    WSumHead(xs + ys);
    WeightShift(n, m);
    var k1, k2, k3, m2, m3 := Weight(1, n), Weight(2, n), Weight(3, n), Weight(2, m), Weight(3, m);
    ConcatArithmetic(x, m, m2, m3, k1, k2, k3, WSum(0, ts), WSum(1, ts), WSum(2, ts));
  }

  lemma ConcatArithmetic(x: int, m: int, m2: int, m3: int, k1: int, k2: int, k3: int, s0: int, s1: int, s2: int)
    ensures (k1 + m) * x + m * s0 == k1 * x + m * (x + s0)
    ensures (k2 + m * k1 + m2) * x + m * s1 + m2 * s0 == k2 * x + m * (k1 * x + s1) + m2 * (x + s0)
    ensures (k3 + m * k2 + m2 * k1 + m3) * x + m * s2 + m2 * s1 + m3 * s0
         == k3 * x + m * (k2 * x + s2) + m2 * (k1 * x + s1) + m3 * (x + s0)
  {
    HeadShift(x, m, k1, k2, k3, m2, m3);
    Spread(m, x, s0);
    Spread(m, k1 * x, s1);
    Spread(m, k2 * x, s2);
    Spread(m2, x, s0);
    Spread(m2, k1 * x, s1);
    Spread(m3, x, s0);
  }

  lemma HeadShift(x: int, m: int, k1: int, k2: int, k3: int, m2: int, m3: int)
    ensures (k1 + m) * x == k1 * x + m * x
    ensures (k2 + m * k1 + m2) * x == k2 * x + m * (k1 * x) + m2 * x
    ensures (k3 + m * k2 + m2 * k1 + m3) * x == k3 * x + m * (k2 * x) + m2 * (k1 * x) + m3 * x
  {
    Associate(m, k1, x);
    Associate(m, k2, x);
    Associate(m2, k1, x);
    Distribute(x, k1, m);
    Distribute(x, k2 + m * k1, m2);
    Distribute(x, k2, m * k1);
    Distribute(x, k3 + m * k2 + m2 * k1, m3);
    Distribute(x, k3 + m * k2, m2 * k1);
    Distribute(x, k3, m * k2);
  }

  /** Replacing one word moves every sum by that word's weight times the change. */
  lemma {:induction false} WSumUpdate(p: nat, ws: seq<nat>, i: nat, v: nat)
    requires i < |ws|
    ensures WSum(p, ws[i := v]) == WSum(p, ws) + Weight(p, |ws| - i) * (v - ws[i])
  {
    var us := ws[i := v];
    if i == 0 {
      assert us[1..] == ws[1..];
      var w: int := ws[0];
      Spread(Weight(p, |ws|), v, -w);
    } else {
      assert us[1..] == ws[1..][i - 1 := v];
      WSumUpdate(p, ws[1..], i - 1, v);
    }
  }

  // ---- fletcher4 ----------------------------------------------------------

  /** The 32-bit words the checksum reads; a trailing partial word is ignored. */
  function Words(data: seq<byte>, e: Endian): (ws: seq<nat>)
    ensures |ws| == |data| / 4
    ensures forall i :: 0 <= i < |ws| ==> ws[i] < TWO32
  {
    seq(|data| / 4, i requires 0 <= i < |data| / 4 => ReadU32(e, data, 4 * i))
  }

  /** The closed form of fletcher4. */
  function Fletcher4Sums(ws: seq<nat>): Cksum {
    Cksum(WSum(0, ws) % TWO64, WSum(1, ws) % TWO64, WSum(2, ws) % TWO64, WSum(3, ws) % TWO64)
  }

  function WrappingAdd(a: u64, b: u64): u64 { (a + b) % TWO64 }

  /** One turn of the source's loop. */
  function Fletcher4Step(s: Cksum, w: u32): Cksum {
    var a := WrappingAdd(s.w0, w);
    var b := WrappingAdd(s.w1, a);
    var c := WrappingAdd(s.w2, b);
    Cksum(a, b, c, WrappingAdd(s.w3, c))
  }

  lemma Fletcher4Append(ws: seq<nat>, w: u32)
    ensures Fletcher4Sums(ws + [w]) == Fletcher4Step(Fletcher4Sums(ws), w)
  {
    hide WSum, Weight, WrappingAdd;
    var us := ws + [w];
    WSumAppend(0, ws, w);
    WSumAppend(1, ws, w);
    WSumAppend(2, ws, w);
    WSumAppend(3, ws, w);
    WrapResidues(WSum(0, ws), w);
    SmallMod(w, TWO64);
    WrapResidues(WSum(1, ws), WSum(0, us));
    WrapResidues(WSum(2, ws), WSum(1, us));
    WrapResidues(WSum(3, ws), WSum(2, us));
  }

  lemma SmallMod(a: nat, m: nat)
    requires a < m
    ensures a % m == a
  {
  }

  lemma WrapResidues(s: nat, t: nat)
    ensures (s + t) % TWO64 == WrappingAdd(s % TWO64, t % TWO64)
  {
  }

  method Fletcher4(data: seq<byte>, e: Endian) returns (r: Cksum)
    ensures r == Fletcher4Sums(Words(data, e))
  {
    var a: u64, b: u64, c: u64, d: u64 := 0, 0, 0, 0;
    ghost var ws := Words(data, e);
    for i := 0 to |data| / 4
      invariant Cksum(a, b, c, d) == Fletcher4Sums(ws[..i])
    {
      var w := ReadU32(e, data, 4 * i);
      assert ws[..i + 1] == ws[..i] + [w];
      Fletcher4Append(ws[..i], w);
      a := WrappingAdd(a, w);
      b := WrappingAdd(b, a);
      c := WrappingAdd(c, b);
      d := WrappingAdd(d, c);
    }
    assert ws[..|data| / 4] == ws;
    r := Cksum(a, b, c, d);
  }

  /** Combines the checksums of two parts, knowing only the second one's word count. */
  function Combine(x: Cksum, y: Cksum, m: nat): Cksum {
    Cksum(
      (x.w0 + y.w0) % TWO64,
      (x.w1 + m * x.w0 + y.w1) % TWO64,
      (x.w2 + m * x.w1 + Weight(2, m) * x.w0 + y.w2) % TWO64,
      (x.w3 + m * x.w2 + Weight(2, m) * x.w1 + Weight(3, m) * x.w0 + y.w3) % TWO64)
  }

  /** Congruence modulo 2^64, by an explicit quotient. */
  lemma Congruent(a: int, b: int, q: int)
    requires a == b + q * TWO64
    ensures a % TWO64 == b % TWO64
  {
  }

  /** The checksum of a concatenation at a word boundary is a function of the two
      checksums and of the second part's length. */
  lemma Fletcher4Concat(xs: seq<byte>, ys: seq<byte>, e: Endian)
    requires |xs| % 4 == 0
    ensures Fletcher4Sums(Words(xs + ys, e))
         == Combine(Fletcher4Sums(Words(xs, e)), Fletcher4Sums(Words(ys, e)), |ys| / 4)
  {
    WordsConcat(xs, ys, e);
    CombineSums(Words(xs, e), Words(ys, e));
  }

  lemma WordsConcat(xs: seq<byte>, ys: seq<byte>, e: Endian)
    requires |xs| % 4 == 0
    ensures Words(xs + ys, e) == Words(xs, e) + Words(ys, e)
  {
    var n := |xs| / 4;
    forall i | 0 <= i < |xs + ys| / 4
      ensures Words(xs + ys, e)[i] == (Words(xs, e) + Words(ys, e))[i]
    {
      if i < n {
        assert (xs + ys)[4 * i..4 * i + 4] == xs[4 * i..4 * i + 4];
      } else {
        assert (xs + ys)[4 * i..4 * i + 4] == ys[4 * (i - n)..4 * (i - n) + 4];
      }
    }
  }

  lemma CombineSums(xs: seq<nat>, ys: seq<nat>)
    ensures Fletcher4Sums(xs + ys) == Combine(Fletcher4Sums(xs), Fletcher4Sums(ys), |ys|)
  {
    hide WSum, Weight;
    WSumConcat(xs, ys);
    var m := |ys|;
    Residues(WSum(0, xs), 0, 0, 0, 0, 0, 0, WSum(0, ys));
    Residues(WSum(1, xs), m, WSum(0, xs), 0, 0, 0, 0, WSum(1, ys));
    Residues(WSum(2, xs), m, WSum(1, xs), Weight(2, m), WSum(0, xs), 0, 0, WSum(2, ys));
    Residues(WSum(3, xs), m, WSum(2, xs), Weight(2, m), WSum(1, xs), Weight(3, m), WSum(0, xs), WSum(3, ys));
  }

  /** Reducing the parts of a linear combination first does not change its residue. */
  lemma Residues(s: nat, m1: nat, s1: nat, m2: nat, s2: nat, m3: nat, s3: nat, t: nat)
    ensures (s + m1 * s1 + m2 * s2 + m3 * s3 + t) % TWO64
         == (s % TWO64 + m1 * (s1 % TWO64) + m2 * (s2 % TWO64) + m3 * (s3 % TWO64) + t % TWO64) % TWO64
  {
    var p1 := MulCongruent(m1, s1);
    var p2 := MulCongruent(m2, s2);
    var p3 := MulCongruent(m3, s3);
    Congruent(s + m1 * s1 + m2 * s2 + m3 * s3 + t,
              s % TWO64 + m1 * (s1 % TWO64) + m2 * (s2 % TWO64) + m3 * (s3 % TWO64) + t % TWO64,
              s / TWO64 + p1 + p2 + p3 + t / TWO64);
  }

  lemma MulCongruent(m: nat, s: nat) returns (q: nat)
    ensures m * s == m * (s % TWO64) + q * TWO64
  {
    q := m * (s / TWO64);
    Spread(m, s % TWO64, s / TWO64 * TWO64);
    Associate(m, s / TWO64, TWO64);
  }

  // ---- detection ----------------------------------------------------------

  /** 32 MiB, the largest block the reader accepts, in 32-bit words. */
  const MAX_WORDS := 0x80_0000

  /** A multiple of 2^64 smaller than 2^64 in magnitude is zero. */
  lemma SmallMultiple(x: int)
    requires x % TWO64 == 0 && -TWO64 < x < TWO64
    ensures x == 0
  {
  }

  lemma SameResidue(a: int, b: int)
    ensures a % TWO64 == b % TWO64 <==> (a - b) % TWO64 == 0
  {
  }

  /** Any change confined to two words of a block is detected, despite the wrap-around. */
  lemma TwoWordsDetected(xs: seq<nat>, ys: seq<nat>, i: nat, j: nat)
    requires |xs| == |ys| <= MAX_WORDS && i < |xs| && j < |xs|
    requires forall k :: 0 <= k < |xs| ==> xs[k] < TWO32 && ys[k] < TWO32
    requires forall k :: 0 <= k < |xs| && k != i && k != j ==> xs[k] == ys[k]
    requires xs != ys
    ensures Fletcher4Sums(xs) != Fletcher4Sums(ys)
  {
    hide WSum, Weight;
    var us := xs[i := ys[i]];
    assert ys == us[j := ys[j]];
    if Fletcher4Sums(xs) == Fletcher4Sums(ys) {
      TwoUpdates(xs, i, ys[i], j, ys[j]);
      TwoChanges(|xs|, i, j, ys[i] as int - xs[i], ys[j] as int - us[j],
                 WSum(0, xs), WSum(0, ys), WSum(1, xs), WSum(1, ys));
    }
  }

  /** The arithmetic of two changes: sums that agree modulo 2^64 cannot tell them
      from no change only when there is none. */
  lemma TwoChanges(n: nat, i: nat, j: nat, di: int, dj: int, s0: nat, t0: nat, s1: nat, t1: nat)
    requires i < n <= MAX_WORDS && j < n && -TWO32 < di < TWO32 && -TWO32 < dj < TWO32
    requires t0 == s0 + di + dj && t1 == s1 + (n - i) * di + (n - j) * dj
    requires s0 % TWO64 == t0 % TWO64 && s1 % TWO64 == t1 % TWO64
    ensures di + dj == 0 && (i == j || di == 0)
  {
    SameResidue(t0, s0);
    SmallMultiple(di + dj);
    SameResidue(t1, s1);
    ApartCancel(n, i, j, di);
    BoundProduct(j - i, di);
    SmallMultiple((j - i) * di);
  }

  /** Opposite changes leave their distance times the first in the second sum. */
  lemma ApartCancel(n: int, i: int, j: int, di: int)
    ensures (n - i) * di + (n - j) * -di == (j - i) * di
  {
  }

  /** The first two sums after two updates. */
  lemma TwoUpdates(xs: seq<nat>, i: nat, u: nat, j: nat, v: nat)
    requires i < |xs| && j < |xs|
    ensures var us := xs[i := u]; var ys := us[j := v]; var di, dj := u - xs[i], v - us[j];
      && WSum(0, ys) == WSum(0, xs) + di + dj
      && WSum(1, ys) == WSum(1, xs) + (|xs| - i) * di + (|xs| - j) * dj
  {
    hide WSum, Weight;
    var us := xs[i := u];
    WeightZero(|xs| - i);
    WeightZero(|xs| - j);
    WSumUpdate(0, xs, i, u);
    WSumUpdate(0, us, j, v);
    WSumUpdate(1, xs, i, u);
    WSumUpdate(1, us, j, v);
    WeightClosed(|xs| - i);
    WeightClosed(|xs| - j);
  }

  lemma BoundProduct(k: int, d: int)
    requires -MAX_WORDS <= k <= MAX_WORDS && -TWO32 < d < TWO32
    ensures -TWO64 < k * d < TWO64
    ensures k * d == 0 ==> k == 0 || d == 0
  {
    if k < 0 && d < 0 { BoundNatProduct(-k, -d); }
    else if k < 0 { BoundNatProduct(-k, d); }
    else if d < 0 { BoundNatProduct(k, -d); }
    else { BoundNatProduct(k, d); }
  }

  lemma BoundNatProduct(k: int, d: int)
    requires 0 <= k <= MAX_WORDS && 0 <= d < TWO32
    ensures 0 <= k * d <= MAX_WORDS * d < TWO64
    ensures k * d == (-k) * (-d) == -((-k) * d) == -(k * (-d))
    ensures k * d == 0 ==> k == 0 || d == 0
  {
  }

  /** Any corruption of at most two bytes of a whole-word block of up to 32 MiB
      changes its fletcher4 checksum. */
  lemma TwoBytesDetected(xs: seq<byte>, ys: seq<byte>, i: nat, j: nat, e: Endian)
    requires |xs| == |ys| <= 4 * MAX_WORDS && |xs| % 4 == 0 && i < |xs| && j < |xs|
    requires forall k :: 0 <= k < |xs| && k != i && k != j ==> xs[k] == ys[k]
    requires xs != ys
    ensures Fletcher4Sums(Words(xs, e)) != Fletcher4Sums(Words(ys, e))
  {
    forall k | 0 <= k < |xs| / 4 && k != i / 4 && k != j / 4
      ensures Words(xs, e)[k] == Words(ys, e)[k]
    {
      assert xs[4 * k..4 * k + 4] == ys[4 * k..4 * k + 4];
    }
    if Words(xs, e) == Words(ys, e) {
      WordsInjective(xs, ys, e);
    }
    TwoWordsDetected(Words(xs, e), Words(ys, e), i / 4, j / 4);
  }

  lemma WordsInjective(xs: seq<byte>, ys: seq<byte>, e: Endian)
    requires |xs| == |ys| && |xs| % 4 == 0 && Words(xs, e) == Words(ys, e)
    ensures xs == ys
  {
    forall k | 0 <= k < |xs|
      ensures xs[k] == ys[k]
    {
      var q := k / 4;
      var u, v := xs[4 * q..4 * q + 4], ys[4 * q..4 * q + 4];
      assert Words(xs, e)[q] == Words(ys, e)[q];
      if e.Little? { LeNatInjective(u, v); } else { BeNatInjective(u, v); }
      assert xs[k] == u[k - 4 * q] && ys[k] == v[k - 4 * q];
    }
  }

  // ---- fletcher2 ----------------------------------------------------------

  /** One lane of fletcher2: the 64-bit words at offsets 16i + 8 * lane. */
  function Lane(data: seq<byte>, e: Endian, lane: nat): (ws: seq<nat>)
    requires lane <= 1
    ensures |ws| == |data| / 16
    ensures forall i :: 0 <= i < |ws| ==> ws[i] < TWO64
  {
    seq(|data| / 16, i requires 0 <= i < |data| / 16 => ReadU64(e, data, 16 * i + 8 * lane))
  }

  function Fletcher2Sums(xs: seq<nat>, ys: seq<nat>): Cksum {
    Cksum(WSum(0, xs) % TWO64, WSum(0, ys) % TWO64, WSum(1, xs) % TWO64, WSum(1, ys) % TWO64)
  }

  lemma Fletcher2Append(ws: seq<nat>, w: u64)
    ensures WSum(0, ws + [w]) % TWO64 == WrappingAdd(WSum(0, ws) % TWO64, w)
    ensures WSum(1, ws + [w]) % TWO64 == WrappingAdd(WSum(1, ws) % TWO64, WSum(0, ws + [w]) % TWO64)
  {
    hide WSum, WrappingAdd;
    WSumAppend(0, ws, w);
    WSumAppend(1, ws, w);
    SmallMod(w, TWO64);
    WrapResidues(WSum(0, ws), w);
    WrapResidues(WSum(1, ws), WSum(0, ws + [w]));
  }

  method Fletcher2(data: seq<byte>, e: Endian) returns (r: Cksum)
    ensures r == Fletcher2Sums(Lane(data, e, 0), Lane(data, e, 1))
  {
    var a0: u64, a1: u64, b0: u64, b1: u64 := 0, 0, 0, 0;
    hide Weight;
    ghost var xs, ys := Lane(data, e, 0), Lane(data, e, 1);
    for i := 0 to |data| / 16
      invariant Cksum(a0, a1, b0, b1) == Fletcher2Sums(xs[..i], ys[..i])
    {
      var off := i * 16;
      var w0, w1 := ReadU64(e, data, off), ReadU64(e, data, off + 8);
      assert xs[..i + 1] == xs[..i] + [w0] && ys[..i + 1] == ys[..i] + [w1];
      Fletcher2Append(xs[..i], w0);
      Fletcher2Append(ys[..i], w1);
      a0 := WrappingAdd(a0, w0);
      a1 := WrappingAdd(a1, w1);
      b0 := WrappingAdd(b0, a0);
      b1 := WrappingAdd(b1, a1);
    }
    assert xs[..|data| / 16] == xs && ys[..|data| / 16] == ys;
    r := Cksum(a0, a1, b0, b1);
  }

  /** A change of two words of one fletcher2 lane is missed exactly when the two
      changes cancel modulo 2^64 and so does their distance times the first one. */
  lemma Fletcher2TwoWords(xs: seq<nat>, i: nat, j: nat, u: nat, v: nat)
    requires i < j < |xs|
    ensures var zs := xs[i := u][j := v];
      (WSum(0, zs) % TWO64 == WSum(0, xs) % TWO64 && WSum(1, zs) % TWO64 == WSum(1, xs) % TWO64)
      <==> ((u - xs[i] + v - xs[j]) % TWO64 == 0 && ((j - i) * (u - xs[i])) % TWO64 == 0)
  {
    hide WSum, Weight;
    var n, zs := |xs|, xs[i := u][j := v];
    var di, dj := u - xs[i], v - xs[j];
    TwoUpdates(xs, i, u, j, v);
    Distribute(di, j - i, n - j);
    Spread(n - j, di, dj);
    SameResidue(WSum(0, zs), WSum(0, xs));
    if (di + dj) % TWO64 == 0 {
      var q := (di + dj) / TWO64;
      Associate(n - j, q, TWO64);
      Congruent(WSum(1, zs), WSum(1, xs) + (j - i) * di, (n - j) * q);
      SameResidue(WSum(1, xs) + (j - i) * di, WSum(1, xs));
    }
  }

  // ---- verify -------------------------------------------------------------

  datatype ChecksumType =
    | Inherit | On | Off | Label | GangHeader | Zilog | Fletcher2Type | Fletcher4Type | Sha256
    | Other(raw: nat)

  function ChecksumFromRaw(v: byte): ChecksumType {
    if v == 0 then Inherit else if v == 1 then On else if v == 2 then Off
    else if v == 3 then Label else if v == 4 then GangHeader else if v == 5 then Zilog
    else if v == 6 then Fletcher2Type else if v == 7 then Fletcher4Type else if v == 8 then Sha256
    else Other(v)
  }

  /** What `verify` answers; SHA-256 comes from another crate and is a parameter. */
  function Verify(sha256: seq<byte> -> Cksum, kind: ChecksumType, e: Endian, data: seq<byte>, expected: Cksum)
    : Option<bool>
  {
    match kind
    case Fletcher4Type => Some(Fletcher4Sums(Words(data, e)) == expected)
    case Fletcher2Type => Some(Fletcher2Sums(Lane(data, e, 0), Lane(data, e, 1)) == expected)
    case Sha256 => Some(sha256(data) == expected)
    case _ => None
  }

  /** No stored checksum accepts both a block and a copy with at most two bytes changed. */
  lemma VerifyRejectsOneOfTwo(
      sha256: seq<byte> -> Cksum, xs: seq<byte>, ys: seq<byte>, i: nat, j: nat, e: Endian, expected: Cksum)
    requires |xs| == |ys| <= 4 * MAX_WORDS && |xs| % 4 == 0 && i < |xs| && j < |xs|
    requires forall k :: 0 <= k < |xs| && k != i && k != j ==> xs[k] == ys[k]
    requires xs != ys
    ensures Verify(sha256, Fletcher4Type, e, xs, expected) == Some(false)
         || Verify(sha256, Fletcher4Type, e, ys, expected) == Some(false)
  {
    hide WSum, Words;
    TwoBytesDetected(xs, ys, i, j, e);
  }

  // ---- acceptance ----------------------------------------------------------

  /** A block is accepted exactly with its own checksum: function 7 is Fletcher-4, the
      weighted sums over the 32-bit words in the block's order; 6 is Fletcher-2, those of
      the two interleaved lanes of 64-bit words; 8 is SHA-256; no other is verified. */
  lemma AcceptsExactly(sha256: seq<byte> -> Cksum, raw: byte, e: Endian, data: seq<byte>, c: Cksum)
    ensures var answer := Verify(sha256, ChecksumFromRaw(raw), e, data, c);
      if raw == 7 then answer == Some(c == Fletcher4Sums(Words(data, e)))
      else if raw == 6 then
        answer == Some(c == Cksum(WSum(0, Lane(data, e, 0)) % TWO64, WSum(0, Lane(data, e, 1)) % TWO64,
                                  WSum(1, Lane(data, e, 0)) % TWO64, WSum(1, Lane(data, e, 1)) % TWO64))
      else if raw == 8 then answer == Some(c == sha256(data))
      else answer == None
  {
    hide WSum, Words, Lane;
  }

  /** What the sums are, word by word. */
  lemma SumsAreWeighted(data: seq<byte>, e: Endian)
    ensures var ws := Words(data, e); var c := Fletcher4Sums(ws);
      && c.w0 == WSum(0, ws) % TWO64 && c.w1 == WSum(1, ws) % TWO64
      && c.w2 == WSum(2, ws) % TWO64 && c.w3 == WSum(3, ws) % TWO64
      && |ws| == |data| / 4 && forall i :: 0 <= i < |ws| ==> ws[i] == ReadU32(e, data, 4 * i)
    ensures var xs, ys := Lane(data, e, 0), Lane(data, e, 1);
      |xs| == |ys| == |data| / 16 && forall i :: 0 <= i < |xs| ==>
        xs[i] == ReadU64(e, data, 16 * i) && ys[i] == ReadU64(e, data, 16 * i + 8)
  {
    hide WSum, ReadNat;
  }

  lemma OneWordSum(p: nat, v: nat)
    ensures WSum(p, [v]) == v
  {
    OneWeight(p);
    var ws: seq<nat> := [v];
    assert ws[1..] == [];
  }

  lemma {:induction false} OneWeight(p: nat)
    ensures Weight(p, 1) == 1
    decreases p
  {
    if p == 0 {
    } else {
      OneWeight(p - 1);
      assert Weight(p, 1) == Weight(p, 0) + Weight(p - 1, 1);
    }
  }

  lemma {:induction false} TwoWordSum(p: nat)
    ensures WSum(p, [1, 2]) == p + 3
    decreases p
  {
    var one: seq<nat> := [1];
    WSumAppend(p, one, 2);
    assert one + [2] == [1, 2];
    OneWordSum(p, 1);
    if p == 0 {
    } else {
      TwoWordSum(p - 1);
    }
  }

  /** Two small blocks and the checksums they are accepted with, in both byte orders. */
  lemma KnownBlocks(sha256: seq<byte> -> Cksum)
    ensures Verify(sha256, ChecksumFromRaw(7), Little, [1, 0, 0, 0, 2, 0, 0, 0], Cksum(3, 4, 5, 6)) == Some(true)
    ensures Verify(sha256, ChecksumFromRaw(7), Big, [0, 0, 0, 1, 0, 0, 0, 2], Cksum(3, 4, 5, 6)) == Some(true)
    ensures Verify(sha256, ChecksumFromRaw(6), Little, [1, 0, 0, 0, 0, 0, 0, 0, 2, 0, 0, 0, 0, 0, 0, 0],
                   Cksum(1, 2, 1, 2)) == Some(true)
    ensures Verify(sha256, ChecksumFromRaw(6), Big, [0, 0, 0, 0, 0, 0, 0, 1, 0, 0, 0, 0, 0, 0, 0, 2],
                   Cksum(1, 2, 1, 2)) == Some(true)
  {
    hide WSum, Weight, ReadNat, Words, Lane;
    KnownWords();
    KnownLanes();
    TwoWordSum(0);
    TwoWordSum(1);
    TwoWordSum(2);
    TwoWordSum(3);
    OneWordSum(0, 1);
    OneWordSum(1, 1);
    OneWordSum(0, 2);
    OneWordSum(1, 2);
  }

  lemma TwoWords(data: seq<byte>, e: Endian)
    requires |data| == 8
    ensures Words(data, e) == [ReadU32(e, data, 0), ReadU32(e, data, 4)]
  {
    hide ReadNat;
    assert |Words(data, e)| == 2;
  }

  lemma OnePair(data: seq<byte>, e: Endian)
    requires |data| == 16
    ensures Lane(data, e, 0) == [ReadU64(e, data, 0)] && Lane(data, e, 1) == [ReadU64(e, data, 8)]
  {
    hide ReadNat;
    assert |Lane(data, e, 0)| == 1 && |Lane(data, e, 1)| == 1;
  }

  lemma ReadsOneByte(e: Endian, data: seq<byte>, off: nat, n: nat, v: byte)
    requires n > 0 && off + n <= |data| && data[if e.Little? then off else off + n - 1] == v
    requires forall i :: off <= i < off + n && i != (if e.Little? then off else off + n - 1) ==> data[i] == 0
    ensures ReadNat(e, data, off, n) == v
  {
    OneByte(data[off..off + n]);
  }

  lemma KnownWords()
    ensures Words([1, 0, 0, 0, 2, 0, 0, 0], Little) == [1, 2]
    ensures Words([0, 0, 0, 1, 0, 0, 0, 2], Big) == [1, 2]
  {
    hide ReadNat, Words;
    var a: seq<byte>, b: seq<byte> := [1, 0, 0, 0, 2, 0, 0, 0], [0, 0, 0, 1, 0, 0, 0, 2];
    TwoWords(a, Little);
    TwoWords(b, Big);
    ReadsOneByte(Little, a, 0, 4, 1);
    ReadsOneByte(Little, a, 4, 4, 2);
    ReadsOneByte(Big, b, 0, 4, 1);
    ReadsOneByte(Big, b, 4, 4, 2);
  }

  lemma KnownLanes()
    ensures Lane([1, 0, 0, 0, 0, 0, 0, 0, 2, 0, 0, 0, 0, 0, 0, 0], Little, 0) == [1]
    ensures Lane([1, 0, 0, 0, 0, 0, 0, 0, 2, 0, 0, 0, 0, 0, 0, 0], Little, 1) == [2]
    ensures Lane([0, 0, 0, 0, 0, 0, 0, 1, 0, 0, 0, 0, 0, 0, 0, 2], Big, 0) == [1]
    ensures Lane([0, 0, 0, 0, 0, 0, 0, 1, 0, 0, 0, 0, 0, 0, 0, 2], Big, 1) == [2]
  {
    hide ReadNat, Lane;
    var a: seq<byte> := [1, 0, 0, 0, 0, 0, 0, 0, 2, 0, 0, 0, 0, 0, 0, 0];
    var b: seq<byte> := [0, 0, 0, 0, 0, 0, 0, 1, 0, 0, 0, 0, 0, 0, 0, 2];
    OnePair(a, Little);
    OnePair(b, Big);
    ReadsOneByte(Little, a, 0, 8, 1);
    ReadsOneByte(Little, a, 8, 8, 2);
    ReadsOneByte(Big, b, 0, 8, 1);
    ReadsOneByte(Big, b, 8, 8, 2);
  }
}
