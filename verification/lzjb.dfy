/** LZJB decompression (core/src/compress.rs, decompress_lzjb).

    A stream is a list of literals and back-references, gated eight at a time by a
    copymap byte whose bits are used lowest first. The decoder is proved to accept
    exactly the buffers that begin with an encoding of some valid item list, and to
    return the first `lsize` bytes of what that list means. */
module Lzjb {
  import opened Arithmetic
  import opened Bytes

  const MATCH_MIN := 3
  const MATCH_MAX := 66
  const OFFSET_MASK := 0x3ff

  datatype Item = Literal(b: byte) | Match(len: nat, offset: nat)

  // ---- meaning of a stream -------------------------------------------------

  /** The meaning of a match: `out` followed by `len` bytes that repeat its last
      `offset` bytes periodically, also when the match is longer than its offset. */
  function Copy(out: seq<byte>, offset: nat, len: nat): (r: seq<byte>)
    requires 1 <= offset <= |out|
    ensures |r| == |out| + len && out <= r
  {
    out + seq(len, k requires 0 <= k < len => out[|out| - offset + k % offset])
  }

  /** An item the format can express after `n` bytes of output. */
  predicate ValidItem(item: Item, n: nat) {
    item.Match? ==> MATCH_MIN <= item.len <= MATCH_MAX && 1 <= item.offset <= Min(n, OFFSET_MASK)
  }

  function ItemLength(item: Item): nat {
    if item.Literal? then 1 else item.len
  }

  function Apply(item: Item, out: seq<byte>): (r: seq<byte>)
    requires ValidItem(item, |out|)
    ensures |r| == |out| + ItemLength(item) && out <= r
  {
    match item
    case Literal(b) => out + [b]
    case Match(len, offset) => Copy(out, offset, len)
  }

  predicate Valid(items: seq<Item>, n: nat) {
    items == [] || (ValidItem(items[0], n) && Valid(items[1..], n + ItemLength(items[0])))
  }

  /** What the items mean when they follow the output `out`. */
  function Expand(items: seq<Item>, out: seq<byte>): (r: seq<byte>)
    requires Valid(items, |out|)
    ensures out <= r
    decreases |items|
  {
    if items == [] then out else Expand(items[1..], Apply(items[0], out))
  }

  // ---- the format ----------------------------------------------------------

  predicate BitSet(cmap: byte, bit: nat) {
    cmap / Power(2, bit) % 2 == 1
  }

  predicate PrintableItem(item: Item) {
    item.Match? ==> MATCH_MIN <= item.len <= MATCH_MAX && item.offset <= OFFSET_MASK
  }

  function ItemBytes(item: Item): seq<byte>
    requires PrintableItem(item)
  {
    match item
    case Literal(b) => [b]
    case Match(len, offset) => [(len - MATCH_MIN) * 4 + offset / 256, offset % 256]
  }

  /** `src` begins with an encoding of `items`, `bit` items having already used up
      the copymap `cmap`; bit 8 asks for a fresh copymap. Copymap bits of absent items
      and the bytes after the encoding are arbitrary. */
  predicate Encodes(src: seq<byte>, cmap: byte, bit: nat, items: seq<Item>)
    requires bit <= 8
    decreases |items|, 1
  {
    items == []
    || if bit == 8 then src != [] && EncodesItem(src[1..], src[0], 0, items)
       else EncodesItem(src, cmap, bit, items)
  }

  predicate EncodesItem(src: seq<byte>, cmap: byte, bit: nat, items: seq<Item>)
    requires bit < 8 && items != []
    decreases |items|, 0
  {
    var item := items[0];
    && PrintableItem(item)
    && BitSet(cmap, bit) == item.Match?
    && ItemBytes(item) <= src
    && Encodes(src[|ItemBytes(item)|..], cmap, bit + 1, items[1..])
  }

  /** The printer: groups of up to eight items behind their copymap byte. */
  function Pack(items: seq<Item>): seq<byte>
    requires Printable(items)
  {
    if items == [] then []
    else
      var n := Min(8, |items|);
      [MapByte(items[..n])] + GroupBytes(items[..n]) + Pack(items[n..])
  }

  predicate Printable(items: seq<Item>) {
    forall i :: 0 <= i < |items| ==> PrintableItem(items[i])
  }

  function MapByte(group: seq<Item>): (m: byte)
    requires |group| <= 8
    ensures m < Power(2, |group|)
    decreases |group|
  {
    if group == [] then 0
    else
      Pow2AtMost(|group|, 8);
      (if group[0].Match? then 1 else 0) + 2 * MapByte(group[1..])
  }

  function GroupBytes(group: seq<Item>): seq<byte>
    requires Printable(group)
  {
    if group == [] then [] else ItemBytes(group[0]) + GroupBytes(group[1..])
  }

  lemma {:induction false} MapByteBits(group: seq<Item>, k: nat)
    requires |group| <= 8 && k < |group|
    ensures BitSet(MapByte(group), k) == group[k].Match?
    decreases k
  {
    if k == 0 {
    } else {
      MapByteBits(group[1..], k - 1);
      var b, m, p := if group[0].Match? then 1 else 0, MapByte(group[1..]), Power(2, k - 1);
      HalveQuotient(b, m, p);
    }
  }

  lemma HalveQuotient(b: nat, m: nat, p: nat)
    requires b < 2 && p > 0
    ensures (b + 2 * m) / (2 * p) == m / p
  {
    var q, r := m / p, m % p;
    assert b + 2 * m == q * (2 * p) + (b + 2 * r);
    DivModOf(b + 2 * m, 2 * p, q, b + 2 * r);
  }

  /** What the printer writes is an encoding, whatever follows it. */
  lemma {:induction false} PackEncodes(items: seq<Item>, tail: seq<byte>, cmap: byte)
    requires Printable(items)
    ensures Encodes(Pack(items) + tail, cmap, 8, items)
    decreases |items|
  {
    if items == [] {
    } else {
      var n := Min(8, |items|);
      var group, rest := items[..n], items[n..];
      PackEncodes(rest, tail, MapByte(group));
      forall k | 0 <= k < n ensures BitSet(MapByte(group), 0 + k) == group[k].Match? {
        MapByteBits(group, k);
      }
      GroupEncodes(group, rest, MapByte(group), 0, Pack(rest) + tail);
      assert group + rest == items;
      hide Encodes, MapByte, GroupBytes, BitSet;
      var head := [MapByte(group)];
      Reassociate(head, GroupBytes(group), Pack(rest));
      Reassociate(head, GroupBytes(group) + Pack(rest), tail);
      Reassociate(GroupBytes(group), Pack(rest), tail);
      SplitHead(head, GroupBytes(group) + (Pack(rest) + tail));
      FreshCopymap(head + (GroupBytes(group) + (Pack(rest) + tail)), cmap, items);
    }
  }

  lemma FreshCopymap(src: seq<byte>, cmap: byte, items: seq<Item>)
    requires items != [] && src != [] && Encodes(src[1..], src[0], 0, items)
    ensures Encodes(src, cmap, 8, items)
  {
  }

  /** The items of one group, gated by bits `k` and up of the copymap. */
  lemma {:induction false} GroupEncodes(group: seq<Item>, rest: seq<Item>, cmap: byte, k: nat, after: seq<byte>)
    requires k + |group| <= 8 && Printable(group)
    requires forall i :: 0 <= i < |group| ==> BitSet(cmap, k + i) == group[i].Match?
    requires rest == [] || (k + |group| == 8 && Encodes(after, cmap, 8, rest))
    ensures Encodes(GroupBytes(group) + after, cmap, k, group + rest)
    decreases |group|
  {
    if group == [] {
      assert GroupBytes(group) + after == after && group + rest == rest;
    } else {
      forall i | 0 <= i < |group[1..]|
        ensures BitSet(cmap, k + 1 + i) == group[1..][i].Match?
      {
        assert BitSet(cmap, k + (i + 1)) == group[i + 1].Match?;
      }
      GroupEncodes(group[1..], rest, cmap, k + 1, after);
      hide Encodes, BitSet;
      var b := ItemBytes(group[0]);
      Reassociate(b, GroupBytes(group[1..]), after);
      DropPrefix(b, GroupBytes(group[1..]) + after);
      SplitHead(group, rest);
      assert BitSet(cmap, k + 0) == group[0].Match?;
      OneMore(b + (GroupBytes(group[1..]) + after), cmap, k, group + rest);
    }
  }

  lemma OneMore(src: seq<byte>, cmap: byte, bit: nat, items: seq<Item>)
    requires bit < 8 && items != [] && PrintableItem(items[0])
    requires BitSet(cmap, bit) == items[0].Match? && ItemBytes(items[0]) <= src
    requires Encodes(src[|ItemBytes(items[0])|..], cmap, bit + 1, items[1..])
    ensures Encodes(src, cmap, bit, items)
  {
  }

  // ---- the decoder ---------------------------------------------------------

  function MatchLength(b0: byte): nat { b0 as int / 4 + MATCH_MIN }

  function MatchOffset(b0: byte, b1: byte): nat {
    (b0 as int * 256 + b1 as int) % (OFFSET_MASK + 1)
  }

  function Bad(reason: Reason): Result<seq<byte>> { Err(DecompressFailed(reason)) }

  /** The decoder's remaining work, `src` being the unread input. */
  function DecodeFrom(src: seq<byte>, cmap: byte, bit: nat, out: seq<byte>, lsize: nat): Result<seq<byte>>
    requires bit <= 8
    decreases lsize - |out|, 1
  {
    if |out| >= lsize then Ok(out)
    else if bit == 8 then
      if src == [] then Bad(LzjbCopymap) else DecodeItem(src[1..], src[0], 0, out, lsize)
    else DecodeItem(src, cmap, bit, out, lsize)
  }

  function DecodeItem(src: seq<byte>, cmap: byte, bit: nat, out: seq<byte>, lsize: nat): Result<seq<byte>>
    requires bit < 8 && |out| < lsize
    decreases lsize - |out|, 0
  {
    if BitSet(cmap, bit) then
      if |src| < 1 then Bad(LzjbControl0)
      else if |src| < 2 then Bad(LzjbControl1)
      else
        var mlen := MatchLength(src[0]);
        var offset := MatchOffset(src[0], src[1]);
        if offset > |out| then Bad(LzjbBeforeStart)
        else if offset == 0 then Bad(LzjbPastOutput)
        else DecodeFrom(src[2..], cmap, bit + 1, Take(Copy(out, offset, mlen), lsize), lsize)
    else if |src| < 1 then Bad(LzjbLiteral)
    else DecodeFrom(src[1..], cmap, bit + 1, out + [src[0]], lsize)
  }

  function Decoded(src: seq<byte>, lsize: nat): Result<seq<byte>> {
    DecodeFrom(src, 0, 8, [], lsize)
  }

  /** The inner loop: copies byte by byte from inside the output being written. */
  method CopyMatch(before: seq<byte>, offset: nat, mlen: nat, lsize: nat) returns (r: Result<seq<byte>>)
    requires offset <= |before| < lsize && mlen > 0
    ensures r == if offset == 0 then Bad(LzjbPastOutput)
                 else Ok(Take(Copy(before, offset, mlen), lsize))
  {
    var out := before;
    var start := |out| - offset;
    for k := 0 to mlen
      invariant |before| <= |out| <= lsize
      invariant k > 0 ==> offset > 0
      invariant offset == 0 ==> out == before
      invariant offset > 0 ==> out == Take(Copy(before, offset, k), lsize)
    {
      if |out| >= lsize {
        TakePrefix(Copy(before, offset, k), Copy(before, offset, mlen), lsize);
        break;
      }
      if start + k >= |out| { return Bad(LzjbPastOutput); }
      CopyAppends(before, offset, k);
      out := out + [out[start + k]];
    }
    return Ok(out);
  }

  method Decompress(src: seq<byte>, lsize: nat) returns (r: Result<seq<byte>>)
    ensures r == Decoded(src, lsize)
  {
    var out: seq<byte> := [];
    var si := 0;
    var copymap: byte := 0;
    var copymask := 128;
    ghost var bit := 8;
    PowersOfTwo(8);
    while |out| < lsize
      invariant 1 <= bit <= 8 && copymask == Power(2, bit - 1)
      invariant si <= |src| && |out| <= lsize
      invariant Decoded(src, lsize) == DecodeFrom(src[si..], copymap, bit, out, lsize)
      decreases lsize - |out|
    {
      PowersOfTwo(bit);
      copymask := copymask * 2;
      if copymask == 256 {
        copymask := 1;
        if si >= |src| { return Bad(LzjbCopymap); }
        copymap := src[si];
        si := si + 1;
        bit := 0;
      }
      assert Decoded(src, lsize) == DecodeItem(src[si..], copymap, bit, out, lsize);
      if copymap / copymask % 2 != 0 {
        if si >= |src| { return Bad(LzjbControl0); }
        if si + 1 >= |src| { return Bad(LzjbControl1); }
        var b0, b1 := src[si], src[si + 1];
        si := si + 2;
        var mlen := MatchLength(b0);
        var offset := MatchOffset(b0, b1);
        if offset > |out| { return Bad(LzjbBeforeStart); }
        var copied := CopyMatch(out, offset, mlen, lsize);
        if copied.Err? { return copied; }
        out := copied.value;
      } else {
        if si >= |src| { return Bad(LzjbLiteral); }
        out := out + [src[si]];
        si := si + 1;
      }
      bit := bit + 1;
    }
    return Ok(out);
  }

  lemma PowersOfTwo(bit: nat)
    requires bit <= 8
    ensures Power(2, bit) == 256 <==> bit == 8
    ensures bit > 0 ==> Power(2, bit) == 2 * Power(2, bit - 1)
    ensures Power(2, 0) == 1
  {
    assert Power(2, 1) == 2 && Power(2, 2) == 4 && Power(2, 3) == 8 && Power(2, 4) == 16;
    assert Power(2, 5) == 32 && Power(2, 6) == 64 && Power(2, 7) == 128 && Power(2, 8) == 256;
  }

  /** The byte the loop copies next, which may be one it has just written. */
  lemma CopyAppends(out: seq<byte>, offset: nat, k: nat)
    requires 1 <= offset <= |out|
    ensures var r := Copy(out, offset, k);
      Copy(out, offset, k + 1) == r + [r[|out| - offset + k]]
  {
    if k >= offset {
      assert k - offset + offset == k && (k - offset) % offset == k % offset by {
        ModuloShift(k - offset, offset);
      }
    }
  }

  /** The two control bytes of a match and its fields determine each other. */
  lemma MatchBytes(item: Item, b0: byte, b1: byte)
    requires item.Match? && PrintableItem(item)
    ensures ItemBytes(item) == [b0, b1]
       <==> item.len == MatchLength(b0) && item.offset == MatchOffset(b0, b1)
  {
    OffsetSplit(b0, b1);
  }

  lemma OffsetSplit(b0: byte, b1: byte)
    ensures MatchOffset(b0, b1) == b0 as int % 4 * 256 + b1 as int
  {
    var q, r := b0 as int / 4, b0 as int % 4;
    DivModOf(b0 as int * 256 + b1 as int, 1024, q, r * 256 + b1 as int);
  }

  // ---- correctness ---------------------------------------------------------

  /** Where the next item is read: past a fresh copymap when the old one is used up. */
  function Loaded(src: seq<byte>, cmap: byte, bit: nat): (seq<byte>, byte, nat)
    requires bit <= 8
    requires bit == 8 ==> src != []
  {
    if bit == 8 then (src[1..], src[0], 0) else (src, cmap, bit)
  }

  lemma ExpandStep(items: seq<Item>, out: seq<byte>)
    requires items != [] && Valid(items, |out|)
    ensures Valid(items[1..], |Apply(items[0], out)|)
    ensures Expand(items, out) == Expand(items[1..], Apply(items[0], out))
  {
  }

  lemma TakePrefix(a: seq<byte>, b: seq<byte>, n: nat)
    requires a <= b && n <= |a|
    ensures b[..n] == a[..n] == Take(a, n)
  {
    assert b[..|a|] == a;
  }

  /** Any valid encoding that is long enough decodes to its meaning. */
  lemma {:induction false} EncodedDecodes(
      items: seq<Item>, src: seq<byte>, cmap: byte, bit: nat, out: seq<byte>, lsize: nat)
    requires bit <= 8 && |out| <= lsize
    requires Encodes(src, cmap, bit, items) && Valid(items, |out|)
    requires lsize <= |Expand(items, out)|
    ensures DecodeFrom(src, cmap, bit, out, lsize) == Ok(Expand(items, out)[..lsize])
    decreases |items|
  {
    if |out| < lsize {
      var (rest, m, b) := Loaded(src, cmap, bit);
      var item := items[0];
      var next := Apply(item, out);
      ExpandStep(items, out);
      ItemDecodes(item, rest, m, b, out, lsize);
      if |next| <= lsize {
        assert Take(next, lsize) == next;
        EncodedDecodes(items[1..], rest[|ItemBytes(item)|..], m, b + 1, next, lsize);
      } else {
        TakePrefix(next, Expand(items, out), lsize);
      }
    } else {
      TakePrefix(out, Expand(items, out), lsize);
      assert out[..lsize] == out;
    }
  }

  lemma ItemDecodes(item: Item, src: seq<byte>, cmap: byte, bit: nat, out: seq<byte>, lsize: nat)
    requires bit < 8 && |out| < lsize && ValidItem(item, |out|)
    requires BitSet(cmap, bit) == item.Match? && ItemBytes(item) <= src
    ensures DecodeItem(src, cmap, bit, out, lsize)
         == DecodeFrom(src[|ItemBytes(item)|..], cmap, bit + 1, Take(Apply(item, out), lsize), lsize)
  {
    var b := ItemBytes(item);
    assert src[..|b|] == b;
    if item.Match? {
      assert src[0] == b[0] && src[1] == b[1];
      MatchBytes(item, src[0], src[1]);
    } else {
      assert src[0] == b[0];
      assert Take(out + [item.b], lsize) == out + [item.b];
    }
  }

  /** Whatever the decoder accepts begins with an encoding of some valid items. */
  lemma {:induction false} DecodedWasEncoded(
      src: seq<byte>, cmap: byte, bit: nat, out: seq<byte>, lsize: nat) returns (items: seq<Item>)
    requires bit <= 8 && |out| <= lsize && DecodeFrom(src, cmap, bit, out, lsize).Ok?
    ensures Encodes(src, cmap, bit, items) && Valid(items, |out|)
    ensures lsize <= |Expand(items, out)|
    ensures DecodeFrom(src, cmap, bit, out, lsize) == Ok(Expand(items, out)[..lsize])
    decreases lsize - |out|
  {
    if |out| == lsize {
      items := [];
      assert Expand([], out)[..lsize] == out;
    } else {
      LoadStep(src, cmap, bit, out, lsize);
      var (rest, m, b) := Loaded(src, cmap, bit);
      var item := ReadItem(rest, m, b, out, lsize);
      hide Expand, Encodes, EncodesItem, Valid, Copy, BitSet, ItemBytes, DecodeFrom, DecodeItem;
      ItemDecodes(item, rest, m, b, out, lsize);
      var next := Apply(item, out);
      if |next| <= lsize {
        assert Take(next, lsize) == next;
        var more := DecodedWasEncoded(rest[|ItemBytes(item)|..], m, b + 1, next, lsize);
        items := [item] + more;
        ConsEncodes(item, more, src, cmap, bit, out);
      } else {
        items := [item];
        LastEncodes(item, src, cmap, bit, out, lsize);
      }
    }
  }

  lemma LoadStep(src: seq<byte>, cmap: byte, bit: nat, out: seq<byte>, lsize: nat)
    requires bit <= 8 && |out| < lsize && DecodeFrom(src, cmap, bit, out, lsize).Ok?
    ensures bit == 8 ==> src != []
    ensures var (rest, m, b) := Loaded(src, cmap, bit);
      DecodeFrom(src, cmap, bit, out, lsize) == DecodeItem(rest, m, b, out, lsize)
  {
  }

  /** The last item may be cut off at the requested length. */
  lemma LastEncodes(item: Item, src: seq<byte>, cmap: byte, bit: nat, out: seq<byte>, lsize: nat)
    requires bit <= 8 && (bit == 8 ==> src != []) && ValidItem(item, |out|)
    requires var (rest, m, b) := Loaded(src, cmap, bit);
      BitSet(m, b) == item.Match? && ItemBytes(item) <= rest
    requires |out| < lsize < |Apply(item, out)|
    ensures var (rest, m, b) := Loaded(src, cmap, bit); var next := Take(Apply(item, out), lsize);
      && Encodes(src, cmap, bit, [item]) && Valid([item], |out|) && lsize <= |Expand([item], out)|
      && DecodeFrom(rest[|ItemBytes(item)|..], m, b + 1, next, lsize) == Ok(Expand([item], out)[..lsize])
  {
    ConsEncodes(item, [], src, cmap, bit, out);
    assert [item] + [] == [item];
    TakePrefix(Apply(item, out), Expand([item], out), lsize);
  }

  lemma ConsEncodes(item: Item, more: seq<Item>, src: seq<byte>, cmap: byte, bit: nat, out: seq<byte>)
    requires bit <= 8 && (bit == 8 ==> src != []) && ValidItem(item, |out|)
    requires Valid(more, |out| + ItemLength(item))
    requires var (rest, m, b) := Loaded(src, cmap, bit);
      && BitSet(m, b) == item.Match? && ItemBytes(item) <= rest
      && Encodes(rest[|ItemBytes(item)|..], m, b + 1, more)
    ensures Encodes(src, cmap, bit, [item] + more) && Valid([item] + more, |out|)
    ensures Expand([item] + more, out) == Expand(more, Apply(item, out))
  {
    hide Copy, BitSet, ItemBytes;
    var items := [item] + more;
    assert items[0] == item && items[1..] == more;
  }

  lemma ReadItem(src: seq<byte>, cmap: byte, bit: nat, out: seq<byte>, lsize: nat) returns (item: Item)
    requires bit < 8 && |out| < lsize && DecodeItem(src, cmap, bit, out, lsize).Ok?
    ensures ValidItem(item, |out|)
    ensures BitSet(cmap, bit) == item.Match? && ItemBytes(item) <= src
  {
    if BitSet(cmap, bit) {
      item := Match(MatchLength(src[0]), MatchOffset(src[0], src[1]));
      MatchBytes(item, src[0], src[1]);
      assert src[..2] == [src[0], src[1]];
    } else {
      item := Literal(src[0]);
      assert ItemBytes(item) == src[..1];
    }
  }

  /** The decoder succeeds with `out` exactly on the buffers that begin with an encoding
      of a valid item list of which `out` is the first `lsize` bytes. */
  lemma DecodesExactly(src: seq<byte>, lsize: nat, out: seq<byte>)
    ensures Decoded(src, lsize) == Ok(out)
       <==> exists items: seq<Item> :: Encodes(src, 0, 8, items) && Valid(items, 0)
              && lsize <= |Expand(items, [])| && out == Expand(items, [])[..lsize]
  {
    if Decoded(src, lsize) == Ok(out) {
      var items := DecodedWasEncoded(src, 0, 8, [], lsize);
      assert Encodes(src, 0, 8, items) && out == Expand(items, [])[..lsize];
    }
    forall items: seq<Item> | Encodes(src, 0, 8, items) && Valid(items, 0) && lsize <= |Expand(items, [])|
      ensures Decoded(src, lsize) == Ok(Expand(items, [])[..lsize])
    {
      EncodedDecodes(items, src, 0, 8, [], lsize);
    }
  }

  /** Printing a valid stream and decoding it, with anything after it, gives its meaning. */
  lemma RoundTrip(items: seq<Item>, tail: seq<byte>, lsize: nat)
    requires Printable(items) && Valid(items, 0) && lsize <= |Expand(items, [])|
    ensures Decoded(Pack(items) + tail, lsize) == Ok(Expand(items, [])[..lsize])
  {
    PackEncodes(items, tail, 0);
    EncodedDecodes(items, Pack(items) + tail, 0, 8, [], lsize);
  }

  /** Output has exactly the requested length, and asking for less gives a prefix. */
  lemma DecodedPrefix(src: seq<byte>, m: nat, n: nat)
    requires n <= m && Decoded(src, m).Ok?
    ensures |Decoded(src, m).value| == m
    ensures Decoded(src, n) == Ok(Decoded(src, m).value[..n])
  {
    var items := DecodedWasEncoded(src, 0, 8, [], m);
    var whole := Expand(items, []);
    EncodedDecodes(items, src, 0, 8, [], n);
    assert whole[..m][..n] == whole[..n];
  }

  /** The decoder succeeds exactly on the buffers that begin with an encoding of at least
      the bytes asked for. */
  lemma SucceedsExactly(src: seq<byte>, lsize: nat)
    ensures Decoded(src, lsize).Ok?
       <==> exists items: seq<Item> :: Encodes(src, 0, 8, items) && Valid(items, 0) && lsize <= |Expand(items, [])|
  {
    if Decoded(src, lsize).Ok? {
      var items := DecodedWasEncoded(src, 0, 8, [], lsize);
      assert Encodes(src, 0, 8, items);
    }
    forall items: seq<Item> | Encodes(src, 0, 8, items) && Valid(items, 0) && lsize <= |Expand(items, [])|
      ensures Decoded(src, lsize).Ok?
    {
      EncodedDecodes(items, src, 0, 8, [], lsize);
    }
  }

  // ---- streams by hand -----------------------------------------------------

  lemma LowBits(m: byte)
    ensures BitSet(m, 0) == (m as int % 2 == 1) && BitSet(m, 1) == (m as int / 2 % 2 == 1)
    ensures BitSet(m, 2) == (m as int / 4 % 2 == 1) && BitSet(m, 3) == (m as int / 8 % 2 == 1)
  {
    assert Power(2, 1) == 2 && Power(2, 2) == 4 && Power(2, 3) == 8;
  }

  lemma TakesLiteral(src: seq<byte>, cmap: byte, bit: nat, out: seq<byte>, lsize: nat)
    requires bit < 8 && |out| < lsize && src != [] && !BitSet(cmap, bit)
    ensures DecodeFrom(src, cmap, bit, out, lsize) == DecodeFrom(src[1..], cmap, bit + 1, out + [src[0]], lsize)
  {
    hide BitSet;
  }

  lemma Loads(src: seq<byte>, lsize: nat)
    requires src != [] && lsize > 0
    ensures Decoded(src, lsize) == DecodeFrom(src[1..], src[0], 0, [], lsize)
  {
    hide DecodeItem;
  }

  /** Copymap 4: two literals, then a match of length 3 at offset 2. */
  lemma KnownMatch()
    ensures Decoded([4, 65, 66, 0, 2], 5) == Ok([65, 66, 65, 66, 65])
  {
    hide BitSet, DecodeItem;
    LowBits(4);
    var src: seq<byte>, out: seq<byte> := [4, 65, 66, 0, 2], [65, 66];
    Loads(src, 5);
    TakesLiteral(src[1..], 4, 0, [], 5);
    TakesLiteral(src[1..][1..], 4, 1, [] + [65], 5);
    var rest := src[1..][1..][1..];
    assert [] + [65] + [66] == out && rest == [0, 2];
    assert Copy(out, 2, 3) == [65, 66, 65, 66, 65];
    MatchStep(rest, 4, 2, out, 5);
  }

  lemma MatchStep(src: seq<byte>, cmap: byte, bit: nat, out: seq<byte>, lsize: nat)
    requires bit < 8 && |out| < lsize && src == [0, 2] && BitSet(cmap, bit) && |out| == 2 && lsize == 5
    ensures DecodeFrom(src, cmap, bit, out, lsize) == Ok(Copy(out, 2, 3))
  {
    hide BitSet, Copy;
    var copied := Copy(out, 2, 3);
    assert |copied| == 5 && Take(copied, 5) == copied;
    assert MatchLength(src[0]) == 3 && MatchOffset(src[0], src[1]) == 2;
    assert DecodeFrom(src[2..], cmap, bit + 1, copied, lsize) == Ok(copied);
    assert DecodeItem(src, cmap, bit, out, lsize) == DecodeFrom(src[2..], cmap, bit + 1, Take(copied, lsize), lsize);
  }

  /** Copymap 0: literals. */
  lemma KnownLiterals()
    ensures Decoded([0, 65, 66, 67, 68], 4) == Ok([65, 66, 67, 68])
  {
    hide BitSet, DecodeItem;
    LowBits(0);
    var src: seq<byte> := [0, 65, 66, 67, 68];
    Loads(src, 4);
    TakesLiteral(src[1..], 0, 0, [], 4);
    TakesLiteral(src[1..][1..], 0, 1, [] + [65], 4);
    TakesLiteral(src[1..][1..][1..], 0, 2, [] + [65] + [66], 4);
    TakesLiteral(src[1..][1..][1..][1..], 0, 3, [] + [65] + [66] + [67], 4);
    assert [] + [65] + [66] + [67] + [68] == [65, 66, 67, 68];
  }
}
