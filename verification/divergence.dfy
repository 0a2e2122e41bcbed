/** Two images on which the level walk of core/src/vfs.rs (l0_blkptrs) and the descent of
    core/src/read.rs (read_dnode_data) follow different pointers of one object. */
module Divergence {
  import opened Arithmetic
  import opened Bytes
  import opened Checksum
  import opened Compress
  import opened BlockPointer
  import opened ReadOne
  import opened DnodePhys
  import opened BlockTree
  import opened Extents

  // ---- an image of one sector ----------------------------------------------

  /** An uncompressed, unchecked one-sector pointer at offset 0. */
  function Pointer(order: Endian): Blkptr {
    BlkptrFields([Dva(0, 1, 0, false), NO_DVA, NO_DVA], 0, 0, 2, false, 2, 19, 0, false, order, 0, 1,
                 Cksum(0, 0, 0, 0), 0, 0, Repeat(0, BPE_PAYLOAD_SIZE))
  }

  function Image(sector: seq<byte>): seq<byte> { Repeat(0, BOOT_SKEW) + sector }

  lemma PointerIs(order: Endian)
    ensures var bp := Pointer(order);
      && OnDisk(bp) && !bp.IsHole() && Addressable(bp) && Printable(bp) && bp.byteorder == order && bp.fill == 1
      && bp.LsizeBytes() == 512 && bp.PsizeBytes() == 512 && bp.dvas[0].PhysicalByteOffset() == BOOT_SKEW
      && !bp.dvas[0].IsEmpty() && CompressFromRaw(bp.compression as int) == CompressType.Off
      && Kind(bp) == ChecksumType.Off
  {
    assert !Pointer(order).dvas[0].IsEmpty();
  }

  lemma SectorReads(env: Env, sector: seq<byte>, order: Endian)
    requires |sector| == 512
    ensures ImageReader(env, Image(sector))(Pointer(order)) == Ok(Block(sector, None, 0))
  {
    hide Pointer, OnDisk, Kind, CompressFromRaw;
    var image, bp := Image(sector), Pointer(order);
    PointerIs(order);
    assert image[BOOT_SKEW..BOOT_SKEW + 512] == sector && sector[..512] == sector;
    assert Raw(image, bp, 0) == Some(sector);
    assert Unpack(env, bp, sector) == Ok(sector);
    assert ReadCopy(env, image, bp, 0) == Ok(Block(sector, None, 0));
    ReadUsesLowestUsableCopy(env, image, bp, 0);
    assert Usable(env, image, bp, 0);
  }

  function Printed(order: Endian): (bytes: seq<byte>)
    ensures |bytes| == BLKPTR_SIZE && Parse(bytes, order) == Pointer(order)
  {
    PointerIs(order);
    ParsePrinted(Pointer(order), Ignored(0, 0, false, 0, 0, 0), order);
    PrintBlkptr(Pointer(order), Ignored(0, 0, false, 0, 0, 0), order)
  }

  /** A little-endian dnode of two levels whose indirect blocks hold one pointer. */
  function Object(order: Endian): Dnode { Dnode(19, 7, 2, 0, 1, 0, Little, [Pointer(order)], []) }

  lemma OnePointer(order: Endian)
    ensures PtrsPerIndirect(Object(order)) == 1 && Levels(Object(order)) == 2
  {
    assert Power(2, 7) == 128;
  }

  lemma OneLeaf(rd: Reader, order: Endian)
    ensures Flat(rd, Object(order)) == Below(rd, Little, 1, Kids(rd, Little, 1, Pointer(order))[0], 0)
  {
    hide Pointer, PtrsPerIndirect, Below, Kids;
    OnePointer(order);
    var bp := Pointer(order);
    var parts := LeavesOfEach(rd, Little, 1, [bp], 1);
    assert Flat(rd, Object(order)) == Concat(parts);
    assert parts[1..] == [] && Concat(parts) == parts[0] + Concat(parts[1..]);
    var kids := Kids(rd, Little, 1, bp);
    var below := BelowEach(rd, Little, 1, kids, 0);
    assert below[1..] == [] && Concat(below) == below[0] + Concat(below[1..]);
  }

  lemma OneListed(rd: Reader, order: Endian)
    ensures L0(rd, Object(order)) == Keep(Take(ChildrenOf(rd, Pointer(order)), MAX_RUNS))
  {
    hide Pointer, ChildrenOf, Addressable, Keep, NextLevel, Take;
    var bp := Pointer(order);
    PointerIs(order);
    assert [bp][1..] == [] && NonHoles([bp]) == [bp];
    NextLevelOfOne(rd, bp);
    TakeAll([bp], MAX_RUNS);
    var next := Take(ChildrenOf(rd, bp), MAX_RUNS);
    assert CappedOrder(rd, [bp], 1) == CappedOrder(rd, next, 0);
  }

  lemma TakeAll<T>(s: seq<T>, n: nat)
    requires |s| <= n
    ensures Take(s, n) == s
  {
  }

  lemma {:induction false} LiveIsShorter(slots: seq<Slot>)
    ensures |Live(slots)| <= |slots|
  {
    if slots == [] {
    } else {
      LiveIsShorter(slots[1..]);
    }
  }

  // ---- the pointers of a sector --------------------------------------------

  lemma SectorPointers(p0: seq<byte>, p1: seq<byte>, e: Endian)
    requires |p0| == BLKPTR_SIZE && |p1| == BLKPTR_SIZE
    ensures var ps := Pointers(p0 + (p1 + Repeat(0, 256)), e);
      |ps| == 4 && ps[0] == Parse(p0, e) && ps[1] == Parse(p1, e) && ps[2].IsHole() && ps[3].IsHole()
  {
    hide Parse;
    var data := p0 + (p1 + Repeat(0, 256));
    assert data[0 * BLKPTR_SIZE..0 * BLKPTR_SIZE + BLKPTR_SIZE] == p0;
    assert data[1 * BLKPTR_SIZE..1 * BLKPTR_SIZE + BLKPTR_SIZE] == p1;
    ParseZeros(data[2 * BLKPTR_SIZE..2 * BLKPTR_SIZE + BLKPTR_SIZE], e);
    ParseZeros(data[3 * BLKPTR_SIZE..3 * BLKPTR_SIZE + BLKPTR_SIZE], e);
  }

  lemma FirstsKept(ps: seq<Blkptr>)
    requires |ps| == 4 && ps[2].IsHole() && ps[3].IsHole() && !ps[0].IsHole()
    ensures NonHoles(ps) == if ps[1].IsHole() then [ps[0]] else [ps[0], ps[1]]
  {
    assert ps[1..][1..] == ps[2..] && ps[2..][1..] == ps[3..] && ps[3..][1..] == [];
    assert NonHoles(ps[3..]) == [] && NonHoles(ps[2..]) == [];
  }

  lemma BothKept(bp: Blkptr)
    requires Addressable(bp)
    ensures Keep([bp]) == [bp] && Keep([bp, bp]) == [bp, bp]
  {
    hide Addressable;
    assert [bp][1..] == [] && [bp, bp][1..] == [bp];
  }

  /** The one leaf a block id leads to. */
  lemma FlatIsShort(rd: Reader, order: Endian)
    ensures |Keep(Live(Flat(rd, Object(order))))| <= 1
  {
    hide Pointer, Keep, Live, Kids, Below, Flat;
    OneLeaf(rd, order);
    BelowCount(rd, Little, 1, Kids(rd, Little, 1, Pointer(order))[0], 0);
    PowerZero(1);
    LiveIsShorter(Flat(rd, Object(order)));
  }

  // ---- more pointers than the dnode says -----------------------------------

  /** Two pointers where the dnode says one. */
  function LongImage(): seq<byte> { Image(Printed(Little) + (Printed(Little) + Repeat(0, 256))) }

  lemma LongChildren(env: Env)
    ensures ChildrenOf(ImageReader(env, LongImage()), Pointer(Little)) == [Pointer(Little), Pointer(Little)]
  {
    hide Pointer, Printed, Pointers, NonHoles, Image, ReadBlock, Addressable, Parse;
    var p := Printed(Little);
    SectorReads(env, p + (p + Repeat(0, 256)), Little);
    PointerIs(Little);
    SectorPointers(p, p, Little);
    FirstsKept(Pointers(p + (p + Repeat(0, 256)), Little));
  }

  /** The enumeration lists two pointers; block ids lead to one. */
  lemma LongBlocksDiverge(env: Env)
    ensures var rd, d := ImageReader(env, LongImage()), Object(Little);
      |L0(rd, d)| == 2 && |Keep(Live(Flat(rd, d)))| <= 1
  {
    hide Pointer, Keep, L0, Flat, Object, LongImage, ReadBlock, Addressable, Take, Live, ChildrenOf;
    var rd, bp := ImageReader(env, LongImage()), Pointer(Little);
    PointerIs(Little);
    LongChildren(env);
    OneListed(rd, Little);
    TakeAll([bp, bp], MAX_RUNS);
    BothKept(bp);
    FlatIsShort(rd, Little);
  }

  // ---- another byte order --------------------------------------------------

  /** A block of one pointer in big-endian order, under a pointer that says so. */
  function BigImage(): seq<byte> { Image(Printed(Big) + (Repeat(0, BLKPTR_SIZE) + Repeat(0, 256))) }

  lemma BigChildren(env: Env)
    ensures ChildrenOf(ImageReader(env, BigImage()), Pointer(Big)) == [Pointer(Big)]
  {
    hide Pointer, Printed, Pointers, NonHoles, Image, ReadBlock, Addressable, Parse;
    var p, zero := Printed(Big), Repeat(0, BLKPTR_SIZE);
    SectorReads(env, p + (zero + Repeat(0, 256)), Big);
    PointerIs(Big);
    ParseZeros(zero, Big);
    SectorPointers(p, zero, Big);
    FirstsKept(Pointers(p + (zero + Repeat(0, 256)), Big));
  }

  /** Eight bytes that read 1 in big-endian order do not in little-endian order. */
  lemma OneSwapped(bs: seq<byte>)
    requires |bs| == 8 && BeNat(bs) == 1
    ensures LeNat(bs) != 1
  {
    BeRoundTrip(1, 8);
    BeNatInjective(bs, BeBytes(1, 8));
    assert BeBytes(1, 8)[0] == BeBytes(0, 7)[0] == BeBytes(0, 6)[0] == BeBytes(0, 5)[0];
    assert BeBytes(0, 5)[0] == BeBytes(0, 4)[0] == BeBytes(0, 3)[0] == BeBytes(0, 2)[0] == BeBytes(0, 1)[0] == 0;
    assert LeNat(bs) == bs[0] + 256 * LeNat(bs[1..]);
  }

  /** The descent takes the same bytes for another pointer. */
  lemma MisreadFill(bytes: seq<byte>)
    requires |bytes| == BLKPTR_SIZE && Parse(bytes, Big).fill == 1
    ensures Parse(bytes, Little).fill != 1
  {
    hide Field, ReadNat;
    ReadsSlice(bytes, 88);
    OneSwapped(bytes[88..96]);
  }

  lemma ReadsSlice(bytes: seq<byte>, off: nat)
    requires off + 8 <= |bytes|
    ensures ReadU64(Big, bytes, off) == BeNat(bytes[off..off + 8])
    ensures ReadU64(Little, bytes, off) == LeNat(bytes[off..off + 8])
  {
  }

  lemma BigLeaf(env: Env)
    ensures var rd := ImageReader(env, BigImage());
      Kids(rd, Little, 1, Pointer(Big)) == [Ok(Parse(Printed(Big), Little))]
  {
    hide Pointer, Printed, Image, ReadBlock, Parse;
    var p, rest := Printed(Big), Repeat(0, BLKPTR_SIZE) + Repeat(0, 256);
    SectorReads(env, p + rest, Big);
    assert (p + rest)[0 * BLKPTR_SIZE..0 * BLKPTR_SIZE + BLKPTR_SIZE] == p;
  }

  lemma OneSlot(rd: Reader, bp: Blkptr)
    ensures var live := Live(Below(rd, Little, 1, Ok(bp), 0)); live == [] || live == [bp]
    ensures Keep([]) == [] && (Keep([bp]) == [] || Keep([bp]) == [bp])
  {
    PowerZero(1);
    assert Repeat<Slot>(Ok(bp), 1) == [Ok(bp)] && [Ok(bp)][1..] == [] && [bp][1..] == [];
  }

  /** The enumeration lists one pointer, and it is not the one a block id leads to. */
  lemma ByteOrdersDiverge(env: Env)
    ensures var rd, d := ImageReader(env, BigImage()), Object(Big);
      L0(rd, d) == [Pointer(Big)] && Pointer(Big) !in Keep(Live(Flat(rd, d)))
  {
    hide Pointer, Printed, Keep, L0, Flat, Object, BigImage, ReadBlock, Addressable, Take, Live, ChildrenOf, Parse;
    hide Below, Kids;
    var rd, bp := ImageReader(env, BigImage()), Pointer(Big);
    PointerIs(Big);
    BigChildren(env);
    OneListed(rd, Big);
    TakeAll([bp], MAX_RUNS);
    BothKept(bp);
    OneLeaf(rd, Big);
    BigLeaf(env);
    MisreadFill(Printed(Big));
    OneSlot(rd, Parse(Printed(Big), Little));
  }
}
