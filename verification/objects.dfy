/** Objects as flat byte arrays: concatenated reads (core/src/zap.rs, read_zap_object;
    core/src/zpl.rs, zpl_read_file_with) and the dnode array of an objset
    (core/src/read.rs, mos_dnode). */
module Objects {
  import opened Arithmetic
  import opened Bytes
  import opened Checksum
  import opened BlockPointer
  import opened Compress
  import opened ReadOne
  import opened DnodePhys
  import opened BlockTree

  const MAX_ZAP_BYTES := 64 * 1024 * 1024
  const MAX_FILE_BYTES := 512 * 1024 * 1024

  /** The data of blocks `0..n`, or the error of the first block that cannot be read. */
  function ReadBlocks(rd: Reader, d: Dnode, n: nat): Result<seq<byte>> {
    if n == 0 then Ok([])
    else
      match ReadBlocks(rd, d, n - 1)
      case Err(e) => Err(e)
      case Ok(before) =>
        match ReadDnodeData(rd, d, n - 1)
        case Err(e) => Err(e)
        case Ok(block) => Ok(before + block.data)
  }

  /** The shared loop of the two callers. */
  method ConcatenateBlocks(env: Env, image: seq<byte>, d: Dnode, n: nat) returns (r: Result<seq<byte>>)
    requires n <= TWO64
    ensures r == ReadBlocks(ImageReader(env, image), d, n)
  {
    hide ReadDnodeData;
    var out: seq<byte> := [];
    for blkid := 0 to n
      invariant ReadBlocks(ImageReader(env, image), d, blkid) == Ok(out)
    {
      var block := ReadDnodeDataAt(env, image, d, blkid);
      if block.Err? {
        FailsForGood(ImageReader(env, image), d, blkid + 1, n);
        return Err(block.error);
      }
      out := out + block.value.data;
    }
    return Ok(out);
  }

  lemma {:induction false} FailsForGood(rd: Reader, d: Dnode, k: nat, n: nat)
    requires k <= n && ReadBlocks(rd, d, k).Err?
    ensures ReadBlocks(rd, d, n) == ReadBlocks(rd, d, k)
    decreases n
  {
    hide ReadDnodeData;
    if k < n {
      FailsForGood(rd, d, k, n - 1);
    }
  }

  // ---- whole objects -------------------------------------------------------

  function ZapBlocks(d: Dnode): nat
    requires d.DataBlockSize() > 0
  {
    Min(d.maxblkid + 1, MAX_ZAP_BYTES / d.DataBlockSize())
  }

  function ZapObject(rd: Reader, d: Dnode): Result<seq<byte>> {
    if d.DataBlockSize() == 0 then Err(Truncated(ZapZeroBlockSize, 1, 0))
    else ReadBlocks(rd, d, ZapBlocks(d))
  }

  method ReadZapObject(env: Env, image: seq<byte>, d: Dnode) returns (r: Result<seq<byte>>)
    ensures r == ZapObject(ImageReader(env, image), d)
  {
    var blockSize := d.DataBlockSize();
    if blockSize == 0 {
      return Err(Truncated(ZapZeroBlockSize, 1, 0));
    }
    r := ConcatenateBlocks(env, image, d, Min(d.maxblkid + 1, MAX_ZAP_BYTES / blockSize));
  }

  function FileBlocks(d: Dnode): nat
    requires d.DataBlockSize() > 0
  {
    var cap := MAX_FILE_BYTES / d.DataBlockSize();
    Min(d.maxblkid + 1, if cap == 0 then 1 else cap)
  }

  /** The objset's object array as `mos_dnode` looks it up. */
  function MosDnode(rd: Reader, meta: Dnode, e: Endian, objectId: nat): Option<Dnode> {
    var perBlock := meta.DataBlockSize() / DNODE_SIZE;
    if perBlock == 0 then None
    else
      var within := Rem(objectId, perBlock) * DNODE_SIZE;
      match ReadDnodeData(rd, meta, Quot(objectId, perBlock))
      case Err(_) => None
      case Ok(block) =>
        match Slice(block.data, within, within + DNODE_SIZE)
        case None => None
        case Some(raw) => AllocatedDnode(raw, e)
  }

  /** A dnode slot's contents; type 0 marks a slot not in use. */
  function AllocatedDnode(raw: seq<byte>, e: Endian): Option<Dnode> {
    match ParseDnode(raw, e)
    case None => None
    case Some(d) => if d.dnType == 0 then None else Some(d)
  }

  function ZplFile(rd: Reader, meta: Dnode, e: Endian, objectId: nat, size: Option<nat>): Result<seq<byte>> {
    match MosDnode(rd, meta, e, objectId)
    case None => Err(Truncated(FileAbsent, 1, 0))
    case Some(d) =>
      if d.DataBlockSize() == 0 then Err(Truncated(FileZeroBlockSize, 1, 0))
      else Content(rd, d, size)
  }

  /** The content behind a file's dnode. */
  function Content(rd: Reader, d: Dnode, size: Option<nat>): Result<seq<byte>>
    requires d.DataBlockSize() > 0
  {
    match ReadBlocks(rd, d, FileBlocks(d))
    case Err(err) => Err(err)
    case Ok(out) => if size.Some? then Ok(out[..Min(size.value, |out|)]) else Ok(out)
  }

  method MosDnodeAt(env: Env, image: seq<byte>, meta: Dnode, e: Endian, objectId: u64) returns (r: Option<Dnode>)
    ensures r == MosDnode(ImageReader(env, image), meta, e, objectId)
  {
    hide ReadDnodeData, ParseDnode;
    var dblk := meta.DataBlockSize();
    if dblk == 0 { return None; }
    var perBlock := dblk / DNODE_SIZE;
    if perBlock == 0 { return None; }
    var blkid := objectId / perBlock;
    SmallQuotient(objectId, perBlock);
    var within := objectId % perBlock * DNODE_SIZE;
    var block := ReadDnodeDataAt(env, image, meta, blkid);
    if block.Err? { return None; }
    var raw := Slice(block.value.data, within, within + DNODE_SIZE);
    if raw.None? { return None; }
    var d := ParseDnodeAt(raw.value, e);
    if d.None? || d.value.dnType == 0 { return None; }
    return d;
  }

  lemma SmallQuotient(x: nat, m: nat)
    requires m > 0
    ensures 0 <= x / m <= x
  {
    assert x == (x / m) * m + x % m;
    if x / m > x {
      AtLeast2(x / m, x + 1, m);
      Distribute(m, x, 1);
      AtLeast2(m, 1, x);
    }
  }

  method ZplReadFileWith(env: Env, image: seq<byte>, meta: Dnode, e: Endian, objectId: u64, size: Option<nat>)
    returns (r: Result<seq<byte>>)
    ensures r == ZplFile(ImageReader(env, image), meta, e, objectId, size)
  {
    hide MosDnode, ReadBlocks;
    var d := MosDnodeAt(env, image, meta, e, objectId);
    if d.None? {
      return Err(Truncated(FileAbsent, 1, 0));
    }
    var blockSize := d.value.DataBlockSize();
    if blockSize == 0 {
      return Err(Truncated(FileZeroBlockSize, 1, 0));
    }
    var cap := MAX_FILE_BYTES / blockSize;
    var out := ConcatenateBlocks(env, image, d.value, Min(d.value.maxblkid + 1, if cap == 0 then 1 else cap));
    if out.Err? { return out; }
    if size.Some? {
      return Ok(out.value[..Min(size.value, |out.value|)]);
    }
    return out;
  }

  // ---- the flat byte array -------------------------------------------------

  /** Every block that reads at all has exactly the object's data block size. */
  predicate UniformBlocks(rd: Reader, d: Dnode, n: nat) {
    forall k :: 0 <= k < n && ReadDnodeData(rd, d, k).Ok? ==>
      |ReadDnodeData(rd, d, k).value.data| == d.DataBlockSize()
  }

  /** Byte `p` of the concatenation is byte `p mod bs` of block `p div bs`. */
  lemma {:induction false} ByteAt(rd: Reader, d: Dnode, n: nat, p: nat)
    requires d.DataBlockSize() > 0 && UniformBlocks(rd, d, n) && ReadBlocks(rd, d, n).Ok?
    ensures var bs := d.DataBlockSize(); var out := ReadBlocks(rd, d, n).value;
      && |out| == n * bs
      && (p < |out| ==>
            var k := Quot(p, bs);
            k < n && ReadDnodeData(rd, d, k).Ok?
            && |ReadDnodeData(rd, d, k).value.data| == bs
            && out[p] == ReadDnodeData(rd, d, k).value.data[Rem(p, bs)])
    decreases n
  {
    hide ReadDnodeData;
    if n == 0 {
    } else {
      var bs := d.DataBlockSize();
      ByteAt(rd, d, n - 1, p);
      Distribute(bs, n - 1, 1);
      if (n - 1) * bs <= p < n * bs {
        DivModOf(p, bs, n - 1, p - (n - 1) * bs);
      }
    }
  }

  /** A file's content is its blocks one after another, a size gives exactly the prefix of
      that length and never more than there is, and where the blocks are uniform it is the
      flat array of them. */
  lemma FileContent(rd: Reader, d: Dnode, size: nat)
    requires d.DataBlockSize() > 0
    ensures var n := FileBlocks(d); var total := n * d.DataBlockSize();
      var whole := Content(rd, d, None); var cut := Content(rd, d, Some(size));
      whole.Ok? ==>
        && cut == Ok(whole.value[..Min(size, |whole.value|)])
        && (forall k :: 0 <= k < n ==> LiesAfterItsPrefix(rd, d, whole.value, k))
        && (UniformBlocks(rd, d, n) ==>
              |whole.value| == total && forall p :: 0 <= p < total ==> IsByteOf(rd, d, whole.value, p))
  {
    hide ReadBlocks, UniformBlocks, At;
    var n := FileBlocks(d);
    if Content(rd, d, None).Ok? {
      var out := ReadBlocks(rd, d, n).value;
      forall k | 0 <= k < n ensures LiesAfterItsPrefix(rd, d, out, k) {
        BlockLies(rd, d, n, k);
      }
      if UniformBlocks(rd, d, n) {
        ByteAt(rd, d, n, 0);
        forall p | 0 <= p < |out| ensures IsByteOf(rd, d, out, p) {
          ByteAt(rd, d, n, p);
        }
      }
    }
  }

  /** Block `k` lies in `out` where the blocks before it end. */
  predicate LiesAfterItsPrefix(rd: Reader, d: Dnode, out: seq<byte>, k: nat) {
    ReadBlocks(rd, d, k).Ok? && ReadDnodeData(rd, d, k).Ok? &&
    At(out, |ReadBlocks(rd, d, k).value|, ReadDnodeData(rd, d, k).value.data)
  }

  /** Position `p` of `out` holds the right byte of the right block. */
  predicate IsByteOf(rd: Reader, d: Dnode, out: seq<byte>, p: nat)
    requires d.DataBlockSize() > 0 && p < |out|
  {
    var block := ReadDnodeData(rd, d, Quot(p, d.DataBlockSize()));
    block.Ok? && Rem(p, d.DataBlockSize()) < |block.value.data|
    && out[p] == block.value.data[Rem(p, d.DataBlockSize())]
  }

  /** Object `id` of an objset is parsed from bytes 512 id .. 512 id + 512 of the flat
      array of the meta-dnode. */
  lemma MosDnodeIsArrayLookup(rd: Reader, meta: Dnode, e: Endian, objectId: nat, n: nat)
    requires meta.DataBlockSize() > 0 && UniformBlocks(rd, meta, n)
    ensures var flat := ReadBlocks(rd, meta, n);
      flat.Ok? && DNODE_SIZE * (objectId + 1) <= |flat.value| ==>
        MosDnode(rd, meta, e, objectId)
        == AllocatedDnode(flat.value[DNODE_SIZE * objectId..DNODE_SIZE * (objectId + 1)], e)
  {
    hide ReadDnodeData, ReadBlocks, UniformBlocks, AllocatedDnode, Quot, Rem;
    var bs, flat := meta.DataBlockSize(), ReadBlocks(rd, meta, n);
    if flat.Ok? && DNODE_SIZE * (objectId + 1) <= |flat.value| {
      var perBlock := bs / DNODE_SIZE;
      var k, slot := Quot(objectId, perBlock), Rem(objectId, perBlock);
      SlotPosition(objectId, perBlock);
      ByteAt(rd, meta, n, DNODE_SIZE * objectId);
      assert Quot(DNODE_SIZE * objectId, bs) == k by { SlotBlock(objectId, perBlock); }
      BlockAt(rd, meta, n, k);
      SliceOfSlice(flat.value, k * bs, bs, DNODE_SIZE * slot, DNODE_SIZE);
    }
  }

  lemma SlotPosition(objectId: nat, perBlock: nat)
    requires perBlock > 0
    ensures var k, slot := Quot(objectId, perBlock), Rem(objectId, perBlock);
      DNODE_SIZE * objectId == k * (perBlock * DNODE_SIZE) + DNODE_SIZE * slot && slot < perBlock
  {
    var k, slot := objectId / perBlock, objectId % perBlock;
    assert objectId == k * perBlock + slot;
    Associate(k, perBlock, DNODE_SIZE);
  }

  lemma SlotBlock(objectId: nat, perBlock: nat)
    requires perBlock > 0
    ensures Quot(DNODE_SIZE * objectId, perBlock * DNODE_SIZE) == Quot(objectId, perBlock)
  {
    SlotPosition(objectId, perBlock);
    DivModOf(DNODE_SIZE * objectId, perBlock * DNODE_SIZE, Quot(objectId, perBlock),
             DNODE_SIZE * Rem(objectId, perBlock));
  }

  /** Block `k` lies at `k * bs` in the concatenation. */
  lemma {:induction false} BlockAt(rd: Reader, d: Dnode, n: nat, k: nat)
    requires d.DataBlockSize() > 0 && UniformBlocks(rd, d, n) && ReadBlocks(rd, d, n).Ok? && k < n
    ensures var bs := d.DataBlockSize(); var out := ReadBlocks(rd, d, n).value;
      && ReadDnodeData(rd, d, k).Ok? && |ReadDnodeData(rd, d, k).value.data| == bs
      && 0 <= k * bs && k * bs + bs <= |out|
      && out[k * bs..k * bs + bs] == ReadDnodeData(rd, d, k).value.data
    decreases n
  {
    hide ReadDnodeData;
    var bs := d.DataBlockSize();
    MulNonneg(k, bs);
    ByteAt(rd, d, n - 1, 0);
    if k < n - 1 {
      BlockAt(rd, d, n - 1, k);
    }
  }

  // ---- when the array is flat ----------------------------------------------

  /** Whatever the sizes, each block lies where the blocks before it end. */
  lemma {:induction false} BlockLies(rd: Reader, d: Dnode, n: nat, k: nat)
    requires ReadBlocks(rd, d, n).Ok? && k < n
    ensures ReadBlocks(rd, d, k).Ok? && ReadDnodeData(rd, d, k).Ok?
    ensures At(ReadBlocks(rd, d, n).value, |ReadBlocks(rd, d, k).value|, ReadDnodeData(rd, d, k).value.data)
    decreases n
  {
    hide ReadDnodeData;
    var before, last := ReadBlocks(rd, d, n - 1).value, ReadDnodeData(rd, d, n - 1).value.data;
    if k == n - 1 {
      AtPrefix(before, last, []);
      assert before + last + [] == before + last;
    } else {
      BlockLies(rd, d, n - 1, k);
      AtExtends(before, last, |ReadBlocks(rd, d, k).value|, ReadDnodeData(rd, d, k).value.data);
    }
  }

  lemma AtExtends(data: seq<byte>, more: seq<byte>, off: nat, bs: seq<byte>)
    requires At(data, off, bs)
    ensures At(data + more, off, bs)
  {
    assert (data + more)[off..off + |bs|] == data[off..off + |bs|];
  }

  /** The first `k` blocks are `k` block sizes long. */
  predicate StartsAtMultiple(rd: Reader, d: Dnode, k: nat) {
    ReadBlocks(rd, d, k).Ok? && |ReadBlocks(rd, d, k).value| == k * d.DataBlockSize()
  }

  /** Blocks are uniform if and only if every one of them starts at its multiple of the
      block size, and the last one ends at the next. */
  lemma {:induction false} UniformExactly(rd: Reader, d: Dnode, n: nat)
    requires ReadBlocks(rd, d, n).Ok?
    ensures UniformBlocks(rd, d, n) <==> forall k :: 0 <= k <= n ==> StartsAtMultiple(rd, d, k)
    decreases n
  {
    hide ReadDnodeData;
    if n == 0 {
      assert 0 * d.DataBlockSize() == 0;
    } else {
      UniformExactly(rd, d, n - 1);
      LastBlock(rd, d, n);
      if UniformBlocks(rd, d, n - 1) && StartsAtMultiple(rd, d, n) {
        forall k | 0 <= k < n && ReadDnodeData(rd, d, k).Ok?
          ensures |ReadDnodeData(rd, d, k).value.data| == d.DataBlockSize()
        {
          if k == n - 1 { assert StartsAtMultiple(rd, d, n - 1); }
        }
      }
      assert UniformBlocks(rd, d, n) ==> UniformBlocks(rd, d, n - 1) && StartsAtMultiple(rd, d, n - 1);
    }
  }

  lemma LastBlock(rd: Reader, d: Dnode, n: nat)
    requires n > 0 && ReadBlocks(rd, d, n).Ok?
    ensures ReadBlocks(rd, d, n - 1).Ok? && ReadDnodeData(rd, d, n - 1).Ok?
    ensures StartsAtMultiple(rd, d, n - 1) ==>
      (StartsAtMultiple(rd, d, n) <==> |ReadDnodeData(rd, d, n - 1).value.data| == d.DataBlockSize())
  {
    hide ReadDnodeData;
    Distribute(d.DataBlockSize(), n - 1, 1);
  }

  /** The flat array's slot `k` names a pointer, and its logical size is the block size. */
  predicate SlotSized(rd: Reader, d: Dnode, k: nat)
    requires d.nlevels > 0
  {
    k < |Flat(rd, d)| && Flat(rd, d)[k].Ok? && Flat(rd, d)[k].value.LsizeBytes() == d.DataBlockSize()
  }

  /** The block's shift counts are sound, and it is not LZ4, whose output length is the
      foreign decoder's choice. */
  predicate Plain(rd: Reader, d: Dnode, k: nat)
    requires d.nlevels > 0
  {
    ShiftSafe(k, IndexShift(d), Levels(d) - 1) &&
    (k < |Flat(rd, d)| && Flat(rd, d)[k].Ok? ==>
       Flat(rd, d)[k].value.IsHole() || !CompressFromRaw(Flat(rd, d)[k].value.compression as int).Lz4?)
  }

  lemma SlotSize(env: Env, image: seq<byte>, d: Dnode, k: u64)
    requires d.nlevels > 0 && k <= d.maxblkid
    requires Plain(ImageReader(env, image), d, k) && ReadDnodeData(ImageReader(env, image), d, k).Ok?
    ensures |ReadDnodeData(ImageReader(env, image), d, k).value.data| == d.DataBlockSize()
       <==> SlotSized(ImageReader(env, image), d, k)
  {
    hide ReadDnodeData, Flat, ShiftSafe, ReadBlock, IndexShift, CompressFromRaw;
    var rd := ImageReader(env, image);
    ReadIsFlatLookup(rd, d, k);
    BlockLength(env, image, Flat(rd, d)[k].value);
  }

  /** On an image: a readable object is a flat array of equal blocks if and only if every
      leaf pointer, hole or not, carries the object's data block size. */
  lemma UniformIffSlotsSized(env: Env, image: seq<byte>, d: Dnode, n: nat)
    requires d.nlevels > 0 && n <= d.maxblkid + 1 && ReadBlocks(ImageReader(env, image), d, n).Ok?
    requires forall k :: 0 <= k < n ==> Plain(ImageReader(env, image), d, k)
    ensures UniformBlocks(ImageReader(env, image), d, n)
       <==> forall k :: 0 <= k < n ==> SlotSized(ImageReader(env, image), d, k)
  {
    hide ReadDnodeData, ReadBlocks, Plain, SlotSized;
    var rd := ImageReader(env, image);
    forall k | 0 <= k < n
      ensures ReadDnodeData(rd, d, k).Ok?
      ensures |ReadDnodeData(rd, d, k).value.data| == d.DataBlockSize() <==> SlotSized(rd, d, k)
    {
      BlockLies(rd, d, n, k);
      SlotSize(env, image, d, k);
    }
  }

  // ---- a sparse file that shifts -------------------------------------------

  function Filled(v: byte, n: nat): (s: seq<byte>)
    ensures |s| == n && forall i :: 0 <= i < n ==> s[i] == v
  {
    Repeat(v, n)
  }

  /** A pointer with 112 bytes of sevens inside, for a block of 1024. */
  function SevensPointer(): Blkptr {
    BlkptrFields([NO_DVA, NO_DVA, NO_DVA], 0, 0, 2, true, 0, 19, 0, false, Little, 0, 0, Cksum(0, 0, 0, 0),
                 1024, 112, Filled(7, BPE_PAYLOAD_SIZE))
  }

  /** A file of two 1024-byte blocks, the first never written: its pointer is all zeros. */
  function SparseDnode(): Dnode {
    Dnode(19, 17, 1, 0, 2, 1, Little, [Parse(Filled(0, BLKPTR_SIZE), Little), SevensPointer()], [])
  }

  lemma SparsePointers(env: Env, image: seq<byte>)
    ensures ReadBlock(env, image, Parse(Filled(0, BLKPTR_SIZE), Little)) == Ok(Block(Repeat(0, 512), None, 0))
    ensures ReadBlock(env, image, SevensPointer())
         == Ok(Block(Resize(Filled(7, BPE_PAYLOAD_SIZE), 1024), None, 0))
  {
    hide Parse, Resize;
    ParseZeros(Filled(0, BLKPTR_SIZE), Little);
    var sevens := Filled(7, BPE_PAYLOAD_SIZE);
    assert sevens[..112] == sevens;
  }

  lemma OneLevel(rd: Reader, d: Dnode, k: nat)
    requires d.nlevels == 1 && k <= d.maxblkid && k < |d.blkptrs|
    ensures ReadDnodeData(rd, d, k) == rd(d.blkptrs[k])
  {
    assert 0 * IndexShift(d) == 0 && Power(2, 0) == 1;
    DivModOf(k, 1, k, 0);
  }

  /** The zero pointer reads as 512 bytes, so byte 512 of the file is byte 0 of block 1, and
      the bytes at block 1's own place in the flat array are not block 1's. */
  lemma SparseFileShifts(env: Env, image: seq<byte>)
    ensures var rd, d := ImageReader(env, image), SparseDnode();
      var whole, second := Content(rd, d, None), ReadDnodeData(rd, d, 1);
      && d.DataBlockSize() == 1024 && whole.Ok? && second.Ok?
      && |whole.value| == 1536 && |second.value.data| == 1024
      && whole.value[512] == second.value.data[0] == 7
      && whole.value[1024] == 0
      && !UniformBlocks(rd, d, 2)
  {
    hide ReadDnodeData, ReadBlock, Parse;
    var rd, d := ImageReader(env, image), SparseDnode();
    SparsePointers(env, image);
    OneLevel(rd, d, 0);
    OneLevel(rd, d, 1);
    assert ReadBlocks(rd, d, 1) == Ok([] + ReadDnodeData(rd, d, 0).value.data);
  }

  // ---- how much is read ----------------------------------------------------

  lemma BlocksWithin(bs: nat, limit: nat, n: nat)
    requires bs > 0
    ensures n <= limit / bs ==> n * bs <= limit
    ensures n * bs <= limit ==> n <= limit / bs
  {
    QuotientNonneg(limit, bs);
    if n <= limit / bs {
      MulNonneg(limit / bs - n, bs);
      Distribute(bs, n, limit / bs - n);
    } else {
      AtLeast2(n, limit / bs + 1, bs);
      Distribute(bs, limit / bs, 1);
    }
  }

  /** A ZAP object is read whole if its blocks come to at most 64 MiB, and never beyond. */
  lemma ZapReadWhole(d: Dnode)
    requires d.DataBlockSize() > 0
    ensures ZapBlocks(d) * d.DataBlockSize() <= 0x400_0000
    ensures (d.maxblkid + 1) * d.DataBlockSize() <= 0x400_0000 ==> ZapBlocks(d) == d.maxblkid + 1
  {
    hide Dnode.DataBlockSize;
    BlocksWithin(d.DataBlockSize(), 0x400_0000, ZapBlocks(d));
    BlocksWithin(d.DataBlockSize(), 0x400_0000, d.maxblkid + 1);
  }

  /** A file is read whole if its blocks come to at most 512 MiB, and never beyond, except
      that one block is always read. */
  lemma FileReadWhole(d: Dnode)
    requires d.DataBlockSize() > 0
    ensures FileBlocks(d) == 1 || FileBlocks(d) * d.DataBlockSize() <= 0x2000_0000
    ensures FileBlocks(d) >= 1
    ensures (d.maxblkid + 1) * d.DataBlockSize() <= 0x2000_0000 ==> FileBlocks(d) == d.maxblkid + 1
  {
    hide Dnode.DataBlockSize;
    BlocksWithin(d.DataBlockSize(), 0x2000_0000, FileBlocks(d));
    BlocksWithin(d.DataBlockSize(), 0x2000_0000, d.maxblkid + 1);
    QuotientNonneg(MAX_FILE_BYTES, d.DataBlockSize());
  }

  /** Objects without a block size are refused; an absent file is too. */
  lemma RefusedObjects(rd: Reader, meta: Dnode, e: Endian, id: nat, d: Dnode, size: Option<nat>)
    ensures d.datablkszsec == 0 ==> ZapObject(rd, d).Err?
    ensures MosDnode(rd, meta, e, id) == None ==> ZplFile(rd, meta, e, id, size).Err?
    ensures MosDnode(rd, meta, e, id) == Some(d) && d.datablkszsec == 0 ==> ZplFile(rd, meta, e, id, size).Err?
    ensures MosDnode(rd, meta, e, id) == Some(d) && d.datablkszsec > 0 ==>
      ZplFile(rd, meta, e, id, size) == Content(rd, d, size)
    ensures d.datablkszsec > 0 ==> d.DataBlockSize() == 512 * d.datablkszsec
  {
    hide MosDnode, ReadBlocks;
  }

  /** An object of type 0 is not allocated; every other type is found where its 512 bytes
      lie in the flat array. */
  lemma ObjectAtItsPlace(rd: Reader, meta: Dnode, e: Endian, id: nat, n: nat, d: Dnode)
    requires meta.DataBlockSize() > 0 && UniformBlocks(rd, meta, n)
    ensures var flat := ReadBlocks(rd, meta, n);
      flat.Ok? && 512 * (id + 1) <= |flat.value| ==>
        (MosDnode(rd, meta, e, id) == Some(d)
         <==> ParseDnode(flat.value[512 * id..512 * (id + 1)], e) == Some(d) && d.dnType != 0)
  {
    hide MosDnode, ReadBlocks, UniformBlocks, ParseDnode;
    MosDnodeIsArrayLookup(rd, meta, e, id, n);
  }
}
