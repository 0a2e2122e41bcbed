/** DMU object metadata (core/src/dnode.rs). */
module DnodePhys {
  import opened Arithmetic
  import opened Bytes
  import opened BlockPointer

  const DNODE_SIZE := 512
  const DNODE_CORE_SIZE := 64

  datatype Dnode = Dnode(
    dnType: byte, indblkshift: byte, nlevels: byte, bonustype: byte, datablkszsec: u16,
    maxblkid: u64, endian: Endian, blkptrs: seq<Blkptr>, bonus: seq<byte>)
  {
    function DataBlockSize(): nat { datablkszsec * 512 }

    function IndirectBlockSize(): nat { Power(2, Min(indblkshift as int, 24)) }
  }

  /** The top-level pointers, as many as `dn_nblkptr` claims and the slots can hold. */
  function BlkptrSlots(raw: seq<byte>, e: Endian, n: nat): (s: seq<Blkptr>)
    ensures |s| <= n
  {
    if n == 0 then []
    else
      var s := BlkptrSlots(raw, e, n - 1);
      var off := DNODE_CORE_SIZE + (n - 1) * BLKPTR_SIZE;
      if |s| == n - 1 && off + BLKPTR_SIZE <= |raw| then s + [Parse(raw[off..off + BLKPTR_SIZE], e)] else s
  }

  function ParseDnode(raw: seq<byte>, e: Endian): Option<Dnode> {
    if |raw| < DNODE_CORE_SIZE then None
    else
      var total := (U8At(raw, 12) as int + 1) * DNODE_SIZE;
      var nblkptr := Min(U8At(raw, 3) as int, (total - DNODE_CORE_SIZE) / BLKPTR_SIZE);
      var bonusOff := DNODE_CORE_SIZE + nblkptr * BLKPTR_SIZE;
      var bonusLen := Min(ReadU16(e, raw, 10), total - bonusOff);
      var bonus := match Slice(raw, bonusOff, bonusOff + bonusLen) case Some(b) => b case None => [];
      Some(Dnode(
        U8At(raw, 0), U8At(raw, 1), U8At(raw, 2), U8At(raw, 4), ReadU16(e, raw, 8),
        ReadU64(e, raw, 16), e, BlkptrSlots(raw, e, nblkptr), bonus))
  }

  /** The source's loop over the pointers. */
  method FillBlkptrs(raw: seq<byte>, e: Endian, n: nat) returns (blkptrs: seq<Blkptr>)
    ensures blkptrs == BlkptrSlots(raw, e, n)
  {
    hide Parse;
    blkptrs := [];
    for i := 0 to n
      invariant blkptrs == BlkptrSlots(raw, e, i) && |blkptrs| == i
    {
      var off := DNODE_CORE_SIZE + i * BLKPTR_SIZE;
      var bp := Slice(raw, off, off + BLKPTR_SIZE);
      if bp.None? {
        NoMoreSlots(raw, e, i, n);
        break;
      }
      blkptrs := blkptrs + [Parse(bp.value, e)];
    }
  }

  /** Past the first pointer that is not all there, no more are taken. */
  lemma {:induction false} NoMoreSlots(raw: seq<byte>, e: Endian, i: nat, n: nat)
    requires i <= n && |raw| < DNODE_CORE_SIZE + i * BLKPTR_SIZE + BLKPTR_SIZE
    ensures BlkptrSlots(raw, e, n) == BlkptrSlots(raw, e, i)
    decreases n
  {
    hide Parse;
    if i == n {
    } else {
      NoMoreSlots(raw, e, i, n - 1);
    }
  }

  method ParseDnodeAt(raw: seq<byte>, e: Endian) returns (r: Option<Dnode>)
    ensures r == ParseDnode(raw, e)
  {
    hide BlkptrSlots, ReadU16, ReadU64;
    if |raw| < DNODE_CORE_SIZE { return None; }
    var total := (U8At(raw, 12) as int + 1) * DNODE_SIZE;
    var nblkptr := Min(U8At(raw, 3) as int, (total - DNODE_CORE_SIZE) / BLKPTR_SIZE);
    var blkptrs := FillBlkptrs(raw, e, nblkptr);
    var bonusOff := DNODE_CORE_SIZE + nblkptr * BLKPTR_SIZE;
    var bonusLen := Min(ReadU16(e, raw, 10), total - bonusOff);
    var bonus := Slice(raw, bonusOff, bonusOff + bonusLen);
    return Some(Dnode(
      U8At(raw, 0), U8At(raw, 1), U8At(raw, 2), U8At(raw, 4), ReadU16(e, raw, 8),
      ReadU64(e, raw, 16), e, blkptrs, if bonus.None? then [] else bonus.value));
  }

  // ---- the layout ----------------------------------------------------------

  /** The 64 bytes before a dnode's pointers, around whatever it does not say. */
  function PrintCore(d: Dnode, nblkptr: byte, bonuslen: u16, flags: seq<byte>, pad: seq<byte>, rest: seq<byte>)
    : (core: seq<byte>)
    requires |flags| == 3 && |pad| == 3 && |rest| == 40
    ensures |core| == 64
  {
    [d.dnType, d.indblkshift, d.nlevels, nblkptr, d.bonustype] + flags
    + NatBytes(d.endian, d.datablkszsec, 2) + NatBytes(d.endian, bonuslen, 2) + ([0] + pad)
    + NatBytes(d.endian, d.maxblkid, 8) + rest
  }

  function Join(pointers: seq<seq<byte>>): seq<byte> {
    if pointers == [] then [] else Join(pointers[..|pointers| - 1]) + pointers[|pointers| - 1]
  }

  predicate AllPointers(pointers: seq<seq<byte>>) { forall i :: 0 <= i < |pointers| ==> |pointers[i]| == BLKPTR_SIZE }

  function ParseAll(pointers: seq<seq<byte>>, e: Endian): seq<Blkptr> {
    seq(|pointers|, i requires 0 <= i < |pointers| => Parse(pointers[i], e))
  }

  lemma {:induction false} SlotsPrinted(raw: seq<byte>, e: Endian, pointers: seq<seq<byte>>)
    requires AllPointers(pointers) && At(raw, DNODE_CORE_SIZE, Join(pointers))
    ensures BlkptrSlots(raw, e, |pointers|) == ParseAll(pointers, e)
    ensures |Join(pointers)| == BLKPTR_SIZE * |pointers|
    decreases |pointers|
  {
    hide Parse, At;
    if pointers == [] {
    } else {
      var n := |pointers|;
      AtSplit(raw, DNODE_CORE_SIZE, Join(pointers[..n - 1]), pointers[n - 1]);
      SlotsPrinted(raw, e, pointers[..n - 1]);
      PieceAt(raw, DNODE_CORE_SIZE + (n - 1) * BLKPTR_SIZE, pointers[n - 1]);
      assert ParseAll(pointers, e) == ParseAll(pointers[..n - 1], e) + [Parse(pointers[n - 1], e)];
    }
  }

  lemma PieceAt(data: seq<byte>, off: nat, bs: seq<byte>)
    requires At(data, off, bs)
    ensures off + |bs| <= |data| && data[off..off + |bs|] == bs
  {
  }

  lemma CoreReads(d: Dnode, nblkptr: byte, bonuslen: u16, flags: seq<byte>, pad: seq<byte>, rest: seq<byte>,
                  more: seq<byte>)
    requires |flags| == 3 && |pad| == 3 && |rest| == 40
    ensures var raw := PrintCore(d, nblkptr, bonuslen, flags, pad, rest) + more; var e := d.endian;
      && U8At(raw, 0) == d.dnType && U8At(raw, 1) == d.indblkshift && U8At(raw, 2) == d.nlevels
      && U8At(raw, 3) == nblkptr && U8At(raw, 4) == d.bonustype && U8At(raw, 12) == 0
      && ReadU16(e, raw, 8) == d.datablkszsec && ReadU16(e, raw, 10) == bonuslen && ReadU64(e, raw, 16) == d.maxblkid
  {
    hide NatBytes, At, ReadNat;
    Pow256Values();
    var e := d.endian;
    var head := [d.dnType, d.indblkshift, d.nlevels, nblkptr, d.bonustype] + flags;
    var size, bonus, last := NatBytes(e, d.datablkszsec, 2), NatBytes(e, bonuslen, 2), NatBytes(e, d.maxblkid, 8);
    var raw := PrintCore(d, nblkptr, bonuslen, flags, pad, rest) + more;
    StartsWith(PrintCore(d, nblkptr, bonuslen, flags, pad, rest), more);
    AtSplit(raw, 0, head + size + bonus + ([0] + pad) + last, rest);
    AtSplit(raw, 0, head + size + bonus + ([0] + pad), last);
    AtSplit(raw, 0, head + size + bonus, [0] + pad);
    AtSplit(raw, 0, head + size, bonus);
    AtSplit(raw, 0, head, size);
    AtRead(e, raw, 8, d.datablkszsec, 2);
    AtRead(e, raw, 10, bonuslen, 2);
    AtRead(e, raw, 16, d.maxblkid, 8);
    BytesAt(raw, 0, head);
    BytesAt(raw, 12, [0] + pad);
  }

  lemma BytesAt(data: seq<byte>, off: nat, bs: seq<byte>)
    requires At(data, off, bs)
    ensures forall i :: 0 <= i < |bs| ==> U8At(data, off + i) == bs[i]
  {
    forall i | 0 <= i < |bs| ensures U8At(data, off + i) == bs[i] {
      assert data[off..off + |bs|][i] == data[off + i];
    }
  }

  /** A dnode of one slot, written out with its pointers and bonus, parses back. */
  lemma DnodeRoundTrip(d: Dnode, pointers: seq<seq<byte>>, flags: seq<byte>, pad: seq<byte>, rest: seq<byte>,
                       fill: seq<byte>)
    requires |flags| == 3 && |pad| == 3 && |rest| == 40 && AllPointers(pointers) && |pointers| <= 3
    requires d.blkptrs == ParseAll(pointers, d.endian) && |Join(pointers)| + |d.bonus| + |fill| == 448
    ensures ParseDnode(PrintCore(d, |pointers|, |d.bonus|, flags, pad, rest) + (Join(pointers) + (d.bonus + fill)),
                       d.endian) == Some(d)
  {
    hide PrintCore, ReadU16, ReadU64, U8At, At, BlkptrSlots, Join;
    var core := PrintCore(d, |pointers|, |d.bonus|, flags, pad, rest);
    var raw := core + (Join(pointers) + (d.bonus + fill));
    CoreReads(d, |pointers|, |d.bonus|, flags, pad, rest, Join(pointers) + (d.bonus + fill));
    Reassociate(core, Join(pointers), d.bonus + fill);
    AtPrefix(core, Join(pointers), d.bonus + fill);
    SlotsPrinted(raw, d.endian, pointers);
    Reassociate(core + Join(pointers), d.bonus, fill);
    AtPrefix(core + Join(pointers), d.bonus, fill);
    PieceAt(raw, 64 + |Join(pointers)|, d.bonus);
  }

  /** A slot that lies about its counts gives what fits it: three pointers, and the bonus
      bytes that are left. Fewer than 64 bytes are no dnode. */
  lemma DnodeCaps(raw: seq<byte>, e: Endian)
    ensures |raw| < 64 ==> ParseDnode(raw, e) == None
    ensures |raw| == 512 && raw[12] == 0 ==>
      ParseDnode(raw, e).Some?
      && |ParseDnode(raw, e).value.blkptrs| == Min(raw[3] as int, 3)
      && |ParseDnode(raw, e).value.bonus| == Min(ReadU16(e, raw, 10), 448 - 128 * Min(raw[3] as int, 3))
  {
    hide Parse, ReadU16, ReadU64;
    if |raw| == 512 {
      AllSlotsFit(raw, e, Min(raw[3] as int, 3));
    }
  }

  lemma {:induction false} AllSlotsFit(raw: seq<byte>, e: Endian, n: nat)
    requires DNODE_CORE_SIZE + n * BLKPTR_SIZE <= |raw|
    ensures |BlkptrSlots(raw, e, n)| == n
    decreases n
  {
    hide Parse;
    if n == 0 {
    } else {
      AllSlotsFit(raw, e, n - 1);
    }
  }
}
