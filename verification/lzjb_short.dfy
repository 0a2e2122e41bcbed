/** LZJB streams that mean fewer bytes than asked for (core/src/compress.rs,
    decompress_lzjb): a whole printed stream of that kind is refused. */
module LzjbShort {
  import opened Arithmetic
  import opened Bytes
  import opened Lzjb

  /** The copymap bits past a group's items are zero. */
  lemma PastGroup(group: seq<Item>)
    requires |group| < 8
    ensures !BitSet(MapByte(group), |group|)
  {
    DivModOf(MapByte(group), Power(2, |group|), 0, MapByte(group));
  }

  /** A printed stream that means fewer bytes than asked for is refused. */
  lemma {:induction false} ShortRefused(items: seq<Item>, cmap: byte, out: seq<byte>, lsize: nat)
    requires Printable(items) && Valid(items, |out|) && |Expand(items, out)| < lsize
    ensures DecodeFrom(Pack(items), cmap, 8, out, lsize).Err?
    decreases |items|, 1
  {
    if items == [] {
    } else {
      var n := Min(8, |items|);
      var group, rest := items[..n], items[n..];
      forall k | 0 <= k < n ensures BitSet(MapByte(group), 0 + k) == group[k].Match? {
        MapByteBits(group, k);
      }
      if n < 8 { PastGroup(group); }
      assert group + rest == items;
      GroupShort(group, rest, MapByte(group), 0, out, lsize);
      Grows(items, out);
      hide DecodeItem, MapByte, GroupBytes, BitSet, Expand, Valid;
      Reassociate([MapByte(group)], GroupBytes(group), Pack(rest));
      SplitHead([MapByte(group)], GroupBytes(group) + Pack(rest));
    }
  }

  lemma Grows(items: seq<Item>, out: seq<byte>)
    requires Valid(items, |out|)
    ensures |out| <= |Expand(items, out)|
  {
  }

  /** The same from the middle of a group on. */
  lemma {:induction false} GroupShort(
      group: seq<Item>, rest: seq<Item>, cmap: byte, k: nat, out: seq<byte>, lsize: nat)
    requires k + |group| <= 8 && Printable(group) && Printable(rest)
    requires forall i :: 0 <= i < |group| ==> BitSet(cmap, k + i) == group[i].Match?
    requires k + |group| == 8 || (rest == [] && !BitSet(cmap, k + |group|))
    requires Valid(group + rest, |out|) && |Expand(group + rest, out)| < lsize
    ensures DecodeFrom(GroupBytes(group) + Pack(rest), cmap, k, out, lsize).Err?
    decreases |rest|, 2, |group|
  {
    hide Expand, Valid, BitSet, DecodeItem, DecodeFrom, Pack, Apply, GroupBytes;
    Grows(group + rest, out);
    if group == [] {
      GroupOver(group, rest, cmap, k, out, lsize);
      if k == 8 { ShortRefused(rest, cmap, out, lsize); }
    } else {
      var item, more := group[0], group[1..];
      SplitHead(group, rest);
      ExpandStep(group + rest, out);
      ValidHead(group + rest, |out|);
      var next := Apply(item, out);
      Grows(more + rest, next);
      TailBits(group, cmap, k);
      assert BitSet(cmap, k + 0) == item.Match?;
      GroupShort(more, rest, cmap, k + 1, next, lsize);
      GroupItem(group, Pack(rest), cmap, k, out, lsize);
    }
  }

  lemma GroupOver(group: seq<Item>, rest: seq<Item>, cmap: byte, k: nat, out: seq<byte>, lsize: nat)
    requires group == [] && k <= 8 && Printable(rest) && |out| < lsize
    ensures GroupBytes(group) + Pack(rest) == Pack(rest) && group + rest == rest
    ensures k < 8 && rest == [] && !BitSet(cmap, k) ==> DecodeFrom([], cmap, k, out, lsize).Err? && Pack(rest) == []
  {
  }

  lemma ValidHead(items: seq<Item>, n: nat)
    requires items != [] && Valid(items, n)
    ensures ValidItem(items[0], n)
  {
  }

  /** The decoder takes a group's first item. */
  lemma GroupItem(group: seq<Item>, after: seq<byte>, cmap: byte, k: nat, out: seq<byte>, lsize: nat)
    requires group != [] && k < 8 && Printable(group) && BitSet(cmap, k) == group[0].Match?
    requires ValidItem(group[0], |out|) && |Apply(group[0], out)| <= lsize && |out| < lsize
    ensures DecodeFrom(GroupBytes(group) + after, cmap, k, out, lsize)
         == DecodeFrom(GroupBytes(group[1..]) + after, cmap, k + 1, Apply(group[0], out), lsize)
  {
    hide BitSet, DecodeItem, DecodeFrom, ItemBytes, Apply;
    var b, next, tail := ItemBytes(group[0]), Apply(group[0], out), GroupBytes(group[1..]) + after;
    Reassociate(b, GroupBytes(group[1..]), after);
    DropPrefix(b, tail);
    ItemDecodes(group[0], b + tail, cmap, k, out, lsize);
    assert Take(next, lsize) == next;
    ItemNext(b + tail, cmap, k, out, lsize);
  }

  lemma TailBits(group: seq<Item>, cmap: byte, k: nat)
    requires group != [] && k + |group| <= 8
    requires forall i :: 0 <= i < |group| ==> BitSet(cmap, k + i) == group[i].Match?
    ensures forall i :: 0 <= i < |group[1..]| ==> BitSet(cmap, k + 1 + i) == group[1..][i].Match?
  {
    forall i | 0 <= i < |group[1..]| ensures BitSet(cmap, k + 1 + i) == group[1..][i].Match? {
      assert BitSet(cmap, k + (i + 1)) == group[i + 1].Match?;
    }
  }

  lemma ItemNext(src: seq<byte>, cmap: byte, bit: nat, out: seq<byte>, lsize: nat)
    requires bit < 8 && |out| < lsize
    ensures DecodeFrom(src, cmap, bit, out, lsize) == DecodeItem(src, cmap, bit, out, lsize)
  {
  }
}
