/** Bounds-checked, endian-adaptive integer readers, the option and error types
    every other module uses, and the matching integer printers.

    A reader yields 0 when the requested range lies outside the buffer, exactly
    as the readers of core/src/bytes.rs do. */
module Bytes {
  import opened Arithmetic

  const TWO16 := 0x1_0000
  const TWO32 := 0x1_0000_0000
  const TWO63 := 0x8000_0000_0000_0000
  const TWO64 := 0x1_0000_0000_0000_0000

  type byte = x: int | 0 <= x < 256
  type u16 = x: int | 0 <= x < TWO16
  type u32 = x: int | 0 <= x < TWO32
  type u64 = x: int | 0 <= x < TWO64

  datatype Option<+T> = None | Some(value: T)

  /** The error conditions of core/src/error.rs that the modelled code raises; the
      texts naming a structure, a field or a reason are enumerations here. */
  datatype ZfsError =
    | Truncated(structure: Structure, need: nat, have: nat)
    | BadNvlistEncoding(encoding: byte)
    | NvlistBomb(field: NvField, value: nat, cap: nat)
    | AllocationBomb(size: nat, limit: nat)
    | DecompressFailed(reason: Reason)
    | UnsupportedCompression(raw: nat)
    | OutOfRange(what: Index, index: nat, max: nat)

  datatype Structure =
    | NoDvaReadable | DvaRange | NvlistHeader | XdrString | ZapZeroBlockSize
    | FileAbsent | FileZeroBlockSize

  datatype NvField = Depth | EncodedSize | PairName | PairString | ByteArrayNelem | PairCount

  datatype Reason =
    | LzjbCopymap | LzjbControl0 | LzjbControl1 | LzjbBeforeStart | LzjbPastOutput | LzjbLiteral
    | ZleControl | ZleLiteralRun
    | Lz4Prefix | Lz4Length | Lz4Stream | GzipStream | ZstdHeader | ZstdStream

  datatype Index = Nlevels | Blkid | TopIndex | ChildIndex

  datatype Result<+T> = Ok(value: T) | Err(error: ZfsError)

  /** Byte order of the on-disk data. */
  datatype Endian = Little | Big {
    function Flip(): Endian { if Little? then Big else Little }
  }

  function Min(a: int, b: int): int { if a <= b then a else b }

  /** Rust's `data.get(lo..hi)`. */
  function Slice<T>(data: seq<T>, lo: nat, hi: nat): Option<seq<T>> {
    if lo <= hi <= |data| then Some(data[lo..hi]) else None
  }

  /** The first `n` elements, or all if there are fewer. */
  function Take<T>(s: seq<T>, n: nat): (t: seq<T>)
    ensures |t| == Min(n, |s|) && t <= s
  {
    s[..Min(n, |s|)]
  }

  predicate Distinct<T(==)>(s: seq<T>) {
    forall i, j :: 0 <= i < j < |s| ==> s[i] != s[j]
  }

  function Repeat<T>(x: T, n: nat): (s: seq<T>)
    ensures |s| == n && forall i :: 0 <= i < n ==> s[i] == x
  {
    seq(n, _ => x)
  }

  function Zeros(n: nat): (s: seq<byte>)
    ensures |s| == n && forall i :: 0 <= i < n ==> s[i] == 0
  {
    Repeat(0, n)
  }

  // ---- sequences -----------------------------------------------------------

  lemma Reassociate<T>(a: seq<T>, b: seq<T>, c: seq<T>)
    ensures a + b + c == a + (b + c)
  {
  }

  lemma DropPrefix<T>(a: seq<T>, b: seq<T>)
    ensures (a + b)[|a|..] == b && a <= a + b && (a + b)[..|a|] == a
  {
  }

  lemma SplitHead<T>(s: seq<T>, rest: seq<T>)
    requires s != []
    ensures (s + rest)[0] == s[0] && (s + rest)[1..] == s[1..] + rest
  {
  }

  lemma SplitAt<T>(s: seq<T>, i: nat)
    requires i < |s|
    ensures s == s[..i] + s[i..] && s[..i + 1] == s[..i] + [s[i]]
  {
  }

  lemma SliceOfSlice<T>(s: seq<T>, a: nat, m: nat, b: nat, k: nat)
    requires a + m <= |s| && b + k <= m
    ensures s[a + b..a + b + k] == s[a..a + m][b..b + k]
  {
    var x, y := s[a + b..a + b + k], s[a..a + m][b..b + k];
    forall i | 0 <= i < k ensures x[i] == y[i] {
      assert x[i] == s[a + b + i];
    }
    assert x == y;
  }

  lemma Pow256Values()
    ensures Power(256, 2) == TWO16 && Power(256, 4) == TWO32 && Power(256, 8) == TWO64
  {
    assert Power(256, 2) == 256 * Power(256, 1) == TWO16;
    assert Power(256, 4) == 256 * Power(256, 3) && Power(256, 3) == 256 * Power(256, 2);
    assert Power(256, 6) == 256 * Power(256, 5) && Power(256, 5) == 256 * Power(256, 4);
    assert Power(256, 8) == 256 * Power(256, 7) && Power(256, 7) == 256 * Power(256, 6);
  }

  // ---- values of byte strings, and byte strings of values ----------------

  function LeNat(bs: seq<byte>): (v: nat)
    ensures v < Power(256, |bs|)
  {
    if bs == [] then 0 else bs[0] + 256 * LeNat(bs[1..])
  }

  function BeNat(bs: seq<byte>): (v: nat)
    ensures v < Power(256, |bs|)
  {
    if bs == [] then 0 else 256 * BeNat(bs[..|bs| - 1]) + bs[|bs| - 1]
  }

  function LeBytes(v: nat, n: nat): (bs: seq<byte>)
    ensures |bs| == n
  {
    if n == 0 then [] else [v % 256] + LeBytes(v / 256, n - 1)
  }

  function BeBytes(v: nat, n: nat): (bs: seq<byte>)
    ensures |bs| == n
  {
    if n == 0 then [] else BeBytes(v / 256, n - 1) + [v % 256]
  }

  lemma {:induction false} LeRoundTrip(v: nat, n: nat)
    requires v < Power(256, n)
    ensures LeNat(LeBytes(v, n)) == v
  {
    if n == 0 {
    } else {
      LeRoundTrip(v / 256, n - 1);
      assert LeBytes(v, n)[1..] == LeBytes(v / 256, n - 1);
    }
  }

  lemma {:induction false} BeRoundTrip(v: nat, n: nat)
    requires v < Power(256, n)
    ensures BeNat(BeBytes(v, n)) == v
  {
    if n == 0 {
    } else {
      BeRoundTrip(v / 256, n - 1);
      assert BeBytes(v, n)[..n - 1] == BeBytes(v / 256, n - 1);
    }
  }

  lemma LastDigit(a: nat, b: byte, c: nat, d: byte)
    requires 256 * a + b == 256 * c + d
    ensures a == c && b == d
  {
  }

  /** Two byte strings of one length with one little-endian value are the same. */
  lemma {:induction false} LeNatInjective(xs: seq<byte>, ys: seq<byte>)
    requires |xs| == |ys| && LeNat(xs) == LeNat(ys)
    ensures xs == ys
  {
    if xs == [] {
    } else {
      LastDigit(LeNat(xs[1..]), xs[0], LeNat(ys[1..]), ys[0]);
      LeNatInjective(xs[1..], ys[1..]);
      assert xs == [xs[0]] + xs[1..] && ys == [ys[0]] + ys[1..];
    }
  }

  lemma {:induction false} BeNatInjective(xs: seq<byte>, ys: seq<byte>)
    requires |xs| == |ys| && BeNat(xs) == BeNat(ys)
    ensures xs == ys
  {
    if xs == [] {
    } else {
      var n := |xs| - 1;
      LastDigit(BeNat(xs[..n]), xs[n], BeNat(ys[..n]), ys[n]);
      BeNatInjective(xs[..n], ys[..n]);
      assert xs == xs[..n] + [xs[n]] && ys == ys[..n] + [ys[n]];
    }
  }

  function Reverse(bs: seq<byte>): (r: seq<byte>)
    ensures |r| == |bs|
  {
    if bs == [] then [] else Reverse(bs[1..]) + [bs[0]]
  }

  /** Reading reversed bytes in the opposite order gives the same number. */
  lemma {:induction false} ReverseSwapsOrder(bs: seq<byte>)
    ensures LeNat(Reverse(bs)) == BeNat(bs) && BeNat(Reverse(bs)) == LeNat(bs)
    decreases |bs|
  {
    if bs == [] {
    } else {
      var n := |bs| - 1;
      ReverseSwapsOrder(bs[1..]);
      assert Reverse(bs)[..n] == Reverse(bs[1..]);
      ReverseSwapsOrder(bs[..n]);
      ReverseFromBack(bs);
      assert Reverse(bs)[1..] == Reverse(bs[..n]);
    }
  }

  lemma {:induction false} ReverseFromBack(bs: seq<byte>)
    requires bs != []
    ensures Reverse(bs) == [bs[|bs| - 1]] + Reverse(bs[..|bs| - 1])
  {
    if |bs| > 1 {
      var n := |bs| - 1;
      ReverseFromBack(bs[1..]);
      assert bs[1..][..n - 1] == bs[..n][1..];
      assert Reverse(bs[..n]) == Reverse(bs[..n][1..]) + [bs[0]];
    } else {
      assert bs == [bs[0]] && bs[1..] == [] && bs[..0] == [];
    }
  }

  // ---- readers ------------------------------------------------------------

  function U8At(data: seq<byte>, off: nat): byte {
    if off < |data| then data[off] else 0
  }

  function ReadNat(e: Endian, data: seq<byte>, off: nat, n: nat): (v: nat)
    ensures v < Power(256, n)
  {
    if off + n > |data| then 0
    else if e.Little? then LeNat(data[off..off + n])
    else BeNat(data[off..off + n])
  }

  function ReadU16(e: Endian, data: seq<byte>, off: nat): u16 {
    Pow256Values(); ReadNat(e, data, off, 2)
  }

  function ReadU32(e: Endian, data: seq<byte>, off: nat): u32 {
    Pow256Values(); ReadNat(e, data, off, 4)
  }

  function ReadU64(e: Endian, data: seq<byte>, off: nat): u64 {
    Pow256Values(); ReadNat(e, data, off, 8)
  }

  function Le16(data: seq<byte>, off: nat): u16 { ReadU16(Little, data, off) }
  function Le32(data: seq<byte>, off: nat): u32 { ReadU32(Little, data, off) }
  function Le64(data: seq<byte>, off: nat): u64 { ReadU64(Little, data, off) }

  function NatBytes(e: Endian, v: nat, n: nat): (bs: seq<byte>)
    ensures |bs| == n
  {
    if e.Little? then LeBytes(v, n) else BeBytes(v, n)
  }

  /** A number printed anywhere in a buffer reads back. */
  lemma ReadPrinted(e: Endian, data: seq<byte>, off: nat, v: nat, n: nat)
    requires v < Power(256, n)
    requires off + n <= |data| && data[off..off + n] == NatBytes(e, v, n)
    ensures ReadNat(e, data, off, n) == v
  {
    LeRoundTrip(v, n);
    BeRoundTrip(v, n);
  }

  /** Reading depends only on the bytes read. */
  lemma ReadShift(e: Endian, pre: seq<byte>, data: seq<byte>, post: seq<byte>, off: nat, n: nat)
    requires off + n <= |data|
    ensures ReadNat(e, pre + data + post, |pre| + off, n) == ReadNat(e, data, off, n)
  {
    assert (pre + data + post)[|pre| + off..|pre| + off + n] == data[off..off + n];
  }

  // ---- contents at a position ----------------------------------------------

  /** `data` holds `bs` at position `off`. */
  predicate At(data: seq<byte>, off: nat, bs: seq<byte>) {
    off + |bs| <= |data| && data[off..off + |bs|] == bs
  }

  lemma AtSplit(data: seq<byte>, off: nat, a: seq<byte>, b: seq<byte>)
    ensures At(data, off, a + b) <==> At(data, off, a) && At(data, off + |a|, b)
  {
    if At(data, off, a + b) {
      SliceOfSlice(data, off, |a + b|, 0, |a|);
      SliceOfSlice(data, off, |a + b|, |a|, |b|);
      assert (a + b)[0..|a|] == a && (a + b)[|a|..|a| + |b|] == b;
    }
    if At(data, off, a) && At(data, off + |a|, b) {
      assert data[off..off + |a + b|] == data[off..off + |a|] + data[off + |a|..off + |a| + |b|];
    }
  }

  lemma AtPrefix(a: seq<byte>, b: seq<byte>, c: seq<byte>)
    ensures At(a + b + c, |a|, b)
  {
  }

  lemma AtRead(e: Endian, data: seq<byte>, off: nat, v: nat, n: nat)
    requires v < Power(256, n) && At(data, off, NatBytes(e, v, n))
    ensures ReadNat(e, data, off, n) == v
  {
    ReadPrinted(e, data, off, v, n);
  }

  lemma ReadsLe16(data: seq<byte>, off: nat, v: u16)
    requires At(data, off, LeBytes(v, 2))
    ensures Le16(data, off) == v
  {
    Pow256Values();
    AtRead(Little, data, off, v, 2);
  }

  lemma StartsWith(a: seq<byte>, b: seq<byte>)
    ensures At(a + b, 0, a)
  {
  }

  lemma ReadsLe32(data: seq<byte>, off: nat, v: u32)
    requires At(data, off, LeBytes(v, 4))
    ensures Le32(data, off) == v
  {
    Pow256Values();
    AtRead(Little, data, off, v, 4);
  }

  lemma ReadsLe64(data: seq<byte>, off: nat, v: u64)
    requires At(data, off, LeBytes(v, 8))
    ensures Le64(data, off) == v
  {
    Pow256Values();
    AtRead(Little, data, off, v, 8);
  }

  lemma {:induction false} ZeroValue(bs: seq<byte>)
    requires forall i :: 0 <= i < |bs| ==> bs[i] == 0
    ensures LeNat(bs) == 0 && BeNat(bs) == 0
    decreases |bs|
  {
    if bs == [] {
    } else {
      ZeroValue(bs[1..]);
      ZeroValue(bs[..|bs| - 1]);
    }
  }

  /** A number that fits one byte, in either order. */
  lemma OneByte(bs: seq<byte>)
    requires bs != []
    ensures (forall i :: 1 <= i < |bs| ==> bs[i] == 0) ==> LeNat(bs) == bs[0]
    ensures (forall i :: 0 <= i < |bs| - 1 ==> bs[i] == 0) ==> BeNat(bs) == bs[|bs| - 1]
  {
    if forall i :: 1 <= i < |bs| ==> bs[i] == 0 { ZeroValue(bs[1..]); }
    if forall i :: 0 <= i < |bs| - 1 ==> bs[i] == 0 { ZeroValue(bs[..|bs| - 1]); }
  }
}
