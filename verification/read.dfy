/** Reading one block (core/src/read.rs, read_block) and the auditor's independent
    checksum verdict on it (forensic/src/lib.rs, blkptr_checksum_verdict). */
module ReadOne {
  import opened Bytes
  import opened Checksum
  import opened Compress
  import opened BlockPointer

  const MAX_BLOCK_SIZE := 0x200_0000

  /** The foreign crates a read depends on. */
  datatype Env = Env(codecs: Codecs, sha256: seq<byte> -> Cksum)

  datatype Block = Block(data: seq<byte>, checksumValid: Option<bool>, dvaUsed: nat)

  predicate SaneSize(bp: Blkptr) { 0 < bp.LsizeBytes() <= MAX_BLOCK_SIZE }

  /** A pointer whose data lies on disk. */
  predicate OnDisk(bp: Blkptr) { !bp.embedded && !bp.IsHole() && SaneSize(bp) }

  function RangeEnd(bp: Blkptr, i: nat): nat
    requires i < 3
  {
    Min(bp.dvas[i].PhysicalByteOffset() + bp.PsizeBytes(), TWO64 - 1)
  }

  /** The on-disk bytes of copy `i`, when it exists and lies inside the image. */
  function Raw(image: seq<byte>, bp: Blkptr, i: nat): Option<seq<byte>>
    requires i < 3
  {
    if bp.dvas[i].IsEmpty() then None
    else Slice(image, bp.dvas[i].PhysicalByteOffset(), RangeEnd(bp, i))
  }

  function Kind(bp: Blkptr): ChecksumType { ChecksumFromRaw(bp.checksum) }

  function Unpack(env: Env, bp: Blkptr, raw: seq<byte>): Result<seq<byte>> {
    Decompress(env.codecs, CompressFromRaw(bp.compression as int), raw, bp.LsizeBytes())
  }

  /** Copy `i` can serve the read. */
  predicate Usable(env: Env, image: seq<byte>, bp: Blkptr, i: nat)
    requires i < 3
  {
    Raw(image, bp, i).Some? && Unpack(env, bp, Raw(image, bp, i).value).Ok?
  }

  /** What reading copy `i` alone gives. */
  function ReadCopy(env: Env, image: seq<byte>, bp: Blkptr, i: nat): Result<Block>
    requires i < 3
  {
    match Raw(image, bp, i)
    case None => Err(Truncated(DvaRange, RangeEnd(bp, i), |image|))
    case Some(raw) =>
      match Unpack(env, bp, raw)
      case Err(e) => Err(e)
      case Ok(data) => Ok(Block(data, Verify(env.sha256, Kind(bp), bp.byteorder, raw, bp.checksumWords), i))
  }

  /** The ditto fallback from copy `i` on. */
  function ReadCopies(env: Env, image: seq<byte>, bp: Blkptr, i: nat, lastErr: ZfsError): Result<Block>
    requires i <= 3
    decreases 3 - i
  {
    if i == 3 then Err(lastErr)
    else if bp.dvas[i].IsEmpty() then ReadCopies(env, image, bp, i + 1, lastErr)
    else
      match ReadCopy(env, image, bp, i)
      case Ok(block) => Ok(block)
      case Err(e) => ReadCopies(env, image, bp, i + 1, e)
  }

  function NothingRead(image: seq<byte>, bp: Blkptr): ZfsError {
    Truncated(NoDvaReadable, bp.PsizeBytes(), |image|)
  }

  function ReadBlock(env: Env, image: seq<byte>, bp: Blkptr): Result<Block> {
    if !SaneSize(bp) then Err(AllocationBomb(bp.LsizeBytes(), MAX_BLOCK_SIZE))
    else if bp.embedded then
      match Unpack(env, bp, bp.EmbeddedData())
      case Err(e) => Err(e)
      case Ok(data) => Ok(Block(data, None, 0))
    else if bp.IsHole() then Ok(Block(Repeat(0, bp.LsizeBytes()), None, 0))
    else ReadCopies(env, image, bp, 0, NothingRead(image, bp))
  }

  /** The source's loop over the three copies. */
  method ReadBlockAt(env: Env, image: seq<byte>, bp: Blkptr) returns (r: Result<Block>)
    ensures r == ReadBlock(env, image, bp)
  {
    hide Decompress, Verify, Slice;
    var lsize := bp.LsizeBytes();
    if lsize == 0 || lsize > MAX_BLOCK_SIZE {
      return Err(AllocationBomb(lsize, MAX_BLOCK_SIZE));
    }
    if bp.embedded {
      var data := Unpack(env, bp, bp.EmbeddedData());
      if data.Err? { return Err(data.error); }
      return Ok(Block(data.value, None, 0));
    }
    if bp.IsHole() {
      return Ok(Block(Repeat(0, lsize), None, 0));
    }
    var psize := bp.PsizeBytes();
    var lastErr := Truncated(NoDvaReadable, psize, |image|);
    for i := 0 to 3
      invariant ReadBlock(env, image, bp) == ReadCopies(env, image, bp, i, lastErr)
    {
      var dva := bp.dvas[i];
      if dva.IsEmpty() { continue; }
      var phys := dva.PhysicalByteOffset();
      var end := Min(phys + psize, TWO64 - 1);
      var range := Slice(image, phys, end);
      if range.None? {
        lastErr := Truncated(DvaRange, end, |image|);
        continue;
      }
      var raw := range.value;
      var valid := Verify(env.sha256, Kind(bp), bp.byteorder, raw, bp.checksumWords);
      var data := Decompress(env.codecs, CompressFromRaw(bp.compression as int), raw, lsize);
      if data.Ok? {
        return Ok(Block(data.value, valid, i));
      }
      lastErr := data.error;
    }
    return Err(lastErr);
  }

  // ---- what read_block promises --------------------------------------------

  lemma {:induction false} ReadCopiesScan(env: Env, image: seq<byte>, bp: Blkptr, i: nat, lastErr: ZfsError)
    requires i <= 3
    ensures var r := ReadCopies(env, image, bp, i, lastErr);
      && (r.Ok? ==> i <= r.value.dvaUsed < 3 && r == ReadCopy(env, image, bp, r.value.dvaUsed)
                    && (forall j :: i <= j < r.value.dvaUsed ==> !Usable(env, image, bp, j)))
      && (r.Err? ==> forall j :: i <= j < 3 ==> !Usable(env, image, bp, j))
      && (r.Err? ==> r == Err(lastErr) || exists j :: i <= j < 3 && r == ReadCopy(env, image, bp, j))
    decreases 3 - i
  {
    hide Verify, Unpack, Slice;
    if i < 3 {
      if bp.dvas[i].IsEmpty() {
        ReadCopiesScan(env, image, bp, i + 1, lastErr);
      } else {
        var here := ReadCopy(env, image, bp, i);
        if here.Err? {
          ReadCopiesScan(env, image, bp, i + 1, here.error);
        }
      }
    }
  }

  /** A read through the copies succeeds exactly when some copy is in range and
      decompresses, and then it is served by the lowest such copy. */
  lemma ReadUsesLowestUsableCopy(env: Env, image: seq<byte>, bp: Blkptr, i: nat)
    requires OnDisk(bp) && i < 3
    ensures var r := ReadBlock(env, image, bp);
      && (r.Ok? <==> Usable(env, image, bp, 0) || Usable(env, image, bp, 1) || Usable(env, image, bp, 2))
      && (r.Ok? && r.value.dvaUsed == i
          <==> Usable(env, image, bp, i) && forall j :: 0 <= j < i ==> !Usable(env, image, bp, j))
      && (r.Ok? && r.value.dvaUsed == i ==> r == ReadCopy(env, image, bp, i))
  {
    hide Verify, Unpack, Slice;
    ReadCopiesScan(env, image, bp, 0, NothingRead(image, bp));
    var r := ReadBlock(env, image, bp);
    if r.Ok? {
      assert Usable(env, image, bp, r.value.dvaUsed);
    }
  }

  /** A failed read reports the failure of its last non-empty copy; the error prepared
      for a pointer without copies never comes out. */
  lemma FailedReadReportsLastCopy(env: Env, image: seq<byte>, bp: Blkptr)
    requires OnDisk(bp) && ReadBlock(env, image, bp).Err?
    ensures exists last: nat :: (last < 3 && !bp.dvas[last].IsEmpty()
      && (forall j :: last < j < 3 ==> bp.dvas[j].IsEmpty())
      && ReadBlock(env, image, bp) == ReadCopy(env, image, bp, last))
  {
    hide Verify, Unpack, Slice;
    var last := if !bp.dvas[2].IsEmpty() then 2 else if !bp.dvas[1].IsEmpty() then 1 else 0;
    assert !bp.dvas[last].IsEmpty();
    var e0 := NothingRead(image, bp);
    var e1 := if bp.dvas[0].IsEmpty() then e0 else ReadCopy(env, image, bp, 0).error;
    var e2 := if bp.dvas[1].IsEmpty() then e1 else ReadCopy(env, image, bp, 1).error;
    assert ReadBlock(env, image, bp) == ReadCopies(env, image, bp, 1, e1);
    assert ReadBlock(env, image, bp) == ReadCopies(env, image, bp, 2, e2);
  }

  // ---- the auditor's verdict -----------------------------------------------

  datatype ChecksumVerdict = Good | Mismatch | Unverified | Unreadable | Bomb(size: nat, limit: nat)

  predicate AllZero(raw: seq<byte>) { forall i :: 0 <= i < |raw| ==> raw[i] == 0 }

  predicate NeverVerified(bp: Blkptr) { Kind(bp).Off? || Kind(bp).Inherit? || Kind(bp).On? }

  /** The verdict on one copy's bytes. */
  function RawVerdict(env: Env, bp: Blkptr, raw: seq<byte>): ChecksumVerdict {
    if AllZero(raw) then Unreadable
    else
      match Verify(env.sha256, Kind(bp), bp.byteorder, raw, bp.checksumWords)
      case Some(true) => Good
      case Some(false) => Mismatch
      case None => Unverified
  }

  /** The lowest copy that exists and lies inside the image; 3 when there is none. */
  function FirstInRange(image: seq<byte>, bp: Blkptr, i: nat): (f: nat)
    requires i <= 3
    ensures i <= f <= 3
    ensures f < 3 ==> Raw(image, bp, f).Some?
    ensures forall j :: i <= j < f ==> Raw(image, bp, j).None?
    decreases 3 - i
  {
    if i == 3 || Raw(image, bp, i).Some? then i else FirstInRange(image, bp, i + 1)
  }

  function Verdict(env: Env, image: seq<byte>, bp: Blkptr): ChecksumVerdict {
    if bp.embedded || bp.IsHole() then Unverified
    else if !SaneSize(bp) then Bomb(bp.LsizeBytes(), MAX_BLOCK_SIZE)
    else if NeverVerified(bp) then Unverified
    else
      var i := FirstInRange(image, bp, 0);
      if i == 3 then Unreadable else RawVerdict(env, bp, Raw(image, bp, i).value)
  }

  method BlkptrChecksumVerdict(env: Env, image: seq<byte>, bp: Blkptr) returns (v: ChecksumVerdict)
    ensures v == Verdict(env, image, bp)
  {
    hide Verify, Slice;
    if bp.embedded || bp.IsHole() {
      return Unverified;
    }
    var lsize := bp.LsizeBytes();
    if lsize == 0 || lsize > MAX_BLOCK_SIZE {
      return Bomb(lsize, MAX_BLOCK_SIZE);
    }
    var kind := ChecksumFromRaw(bp.checksum);
    if kind.Off? || kind.Inherit? || kind.On? {
      return Unverified;
    }
    var psize := bp.PsizeBytes();
    for i := 0 to 3
      invariant FirstInRange(image, bp, 0) == FirstInRange(image, bp, i)
    {
      var dva := bp.dvas[i];
      if dva.IsEmpty() { continue; }
      var phys := dva.PhysicalByteOffset();
      var range := Slice(image, phys, Min(phys + psize, TWO64 - 1));
      if range.None? { continue; }
      if AllZero(range.value) { return Unreadable; }
      match Verify(env.sha256, kind, bp.byteorder, range.value, bp.checksumWords) {
        case Some(true) => return Good;
        case Some(false) => return Mismatch;
        case None => return Unverified;
      }
    }
    return Unreadable;
  }

  /** When the first in-range copy decompresses, reader and auditor look at the same
      bytes, and the verdict is a function of the reader's checksum result. */
  lemma VerdictMatchesReader(env: Env, image: seq<byte>, bp: Blkptr)
    requires OnDisk(bp)
    requires var i := FirstInRange(image, bp, 0); i < 3 && Usable(env, image, bp, i)
    ensures var raw := Raw(image, bp, FirstInRange(image, bp, 0)).value;
      var r := ReadBlock(env, image, bp); var v := Verdict(env, image, bp);
      && r.Ok? && r.value.dvaUsed == FirstInRange(image, bp, 0)
      && (v == Mismatch <==> r.value.checksumValid == Some(false) && !AllZero(raw))
      && (v == Good <==> r.value.checksumValid == Some(true) && !AllZero(raw))
      && (v == Unverified <==> r.value.checksumValid == None && (NeverVerified(bp) || !AllZero(raw)))
      && (v == Unreadable <==> !NeverVerified(bp) && AllZero(raw))
  {
    hide Unpack, Slice;
    var i := FirstInRange(image, bp, 0);
    assert forall j :: 0 <= j < i ==> !Usable(env, image, bp, j);
    ReadUsesLowestUsableCopy(env, image, bp, i);
  }

  /** A mismatch is found on the very bytes the reader serves exactly when the first
      in-range copy decompresses. */
  lemma MismatchIsServed(env: Env, image: seq<byte>, bp: Blkptr)
    requires OnDisk(bp) && Verdict(env, image, bp) == Mismatch
    ensures var i := FirstInRange(image, bp, 0); var r := ReadBlock(env, image, bp);
      && i < 3
      && ((r.Ok? && r.value.dvaUsed == i && r.value.checksumValid == Some(false)) <==> Usable(env, image, bp, i))
  {
    hide Unpack, Slice;
    var i := FirstInRange(image, bp, 0);
    if Usable(env, image, bp, i) {
      VerdictMatchesReader(env, image, bp);
    } else {
      ReadUsesLowestUsableCopy(env, image, bp, i);
    }
  }

  /** Otherwise it can be a false alarm: a corrupt first copy that does not decompress is
      reported although the reader serves a verified block from the second. */
  lemma FalseAlarm(env: Env, image: seq<byte>, bp: Blkptr)
    requires OnDisk(bp) && !NeverVerified(bp)
    requires Raw(image, bp, 0).Some? && !Usable(env, image, bp, 0)
    requires RawVerdict(env, bp, Raw(image, bp, 0).value) == Mismatch
    requires Usable(env, image, bp, 1) && RawVerdict(env, bp, Raw(image, bp, 1).value) == Good
    ensures Verdict(env, image, bp) == Mismatch
    ensures ReadBlock(env, image, bp).Ok? && ReadBlock(env, image, bp).value.checksumValid == Some(true)
  {
    hide Unpack, Slice;
    ReadUsesLowestUsableCopy(env, image, bp, 1);
  }

  /** Every block comes out at its declared logical size, unless it is LZ4. */
  lemma BlockLength(env: Env, image: seq<byte>, bp: Blkptr)
    requires ReadBlock(env, image, bp).Ok?
    requires bp.IsHole() || !CompressFromRaw(bp.compression as int).Lz4?
    ensures |ReadBlock(env, image, bp).value.data| == bp.LsizeBytes()
  {
    var kind := CompressFromRaw(bp.compression as int);
    hide Decompress, CompressFromRaw, Verify, Slice;
    if bp.embedded {
      DecompressedLength(env.codecs, kind, bp.EmbeddedData(), bp.LsizeBytes());
    } else if !bp.IsHole() {
      ReadCopiesScan(env, image, bp, 0, NothingRead(image, bp));
      var raw := Raw(image, bp, ReadBlock(env, image, bp).value.dvaUsed).value;
      DecompressedLength(env.codecs, kind, raw, bp.LsizeBytes());
    }
  }

  // ---- what is read, byte by byte ------------------------------------------

  /** A copy's DVA is in use, and its bytes lie at its place in the image. */
  predicate LiesAt(image: seq<byte>, dva: Dva, raw: seq<byte>) {
    (dva.vdev != 0 || dva.asizeSectors != 0 || dva.offsetSectors != 0) &&
    512 * dva.offsetSectors < TWO63 && At(image, 0x40_0000 + 512 * dva.offsetSectors, raw)
  }

  /** No copy before `i` is in use. */
  predicate FirstUsed(bp: Blkptr, i: nat)
    requires i < 3
  {
    forall j :: 0 <= j < i ==>
      bp.dvas[j].vdev == 0 && bp.dvas[j].asizeSectors == 0 && bp.dvas[j].offsetSectors == 0
  }

  lemma RawIs(image: seq<byte>, bp: Blkptr, i: nat, raw: seq<byte>)
    requires i < 3 && |image| < TWO64 && !bp.embedded && |raw| == 512 * (bp.psizeRaw + 1)
    requires LiesAt(image, bp.dvas[i], raw)
    ensures Raw(image, bp, i) == Some(raw)
  {
  }

  /** An intact copy is read: exactly the bytes of its stored size at its place, with the
      codec, the size, the byte order and the checksum of the pointer. */
  lemma IntactCopyIsRead(env: Env, image: seq<byte>, bp: Blkptr, i: nat, raw: seq<byte>, data: seq<byte>)
    requires |image| < TWO64 && i < 3 && FirstUsed(bp, i)
    requires !bp.embedded && bp.lsizeRaw < 0x1_0000 && |raw| == 512 * (bp.psizeRaw + 1)
    requires LiesAt(image, bp.dvas[i], raw)
    requires Decompress(env.codecs, CompressFromRaw(bp.compression as int), raw, 512 * (bp.lsizeRaw + 1)) == Ok(data)
    ensures ReadBlock(env, image, bp)
         == Ok(Block(data, Verify(env.sha256, ChecksumFromRaw(bp.checksum), bp.byteorder, raw, bp.checksumWords), i))
  {
    hide Raw, Verify, Decompress, CompressFromRaw, ChecksumFromRaw;
    RawIs(image, bp, i, raw);
    assert !bp.dvas[i].IsEmpty() && OnDisk(bp);
    forall j | 0 <= j < i ensures !Usable(env, image, bp, j) {
      EmptyCopy(image, bp, j);
    }
    assert Usable(env, image, bp, i);
    ReadUsesLowestUsableCopy(env, image, bp, i);
  }

  lemma EmptyCopy(image: seq<byte>, bp: Blkptr, j: nat)
    requires j < 3 && bp.dvas[j].vdev == 0 && bp.dvas[j].asizeSectors == 0 && bp.dvas[j].offsetSectors == 0
    ensures Raw(image, bp, j) == None
  {
  }

  /** An embedded block is read out of the pointer itself, unverified. */
  lemma EmbeddedIsRead(env: Env, image: seq<byte>, bp: Blkptr)
    requires bp.embedded && 0 < bp.embeddedLsize <= 0x200_0000
    ensures var r := Decompress(env.codecs, CompressFromRaw(bp.compression as int),
                                bp.payload[..Min(bp.embeddedPsize, 112)], bp.embeddedLsize);
      ReadBlock(env, image, bp) == match r case Ok(data) => Ok(Block(data, None, 0)) case Err(err) => Err(err)
  {
    hide Decompress, CompressFromRaw;
  }

  /** Where a copy ends: its offset in sectors wraps at 64 bits, the sums stop at the largest
      64-bit number. */
  function EndOf(sectors: nat, psizeRaw: nat): nat {
    Min(Min(sectors * 512 % 0x1_0000_0000_0000_0000 + 0x40_0000, 0xffff_ffff_ffff_ffff) + 512 * (psizeRaw + 1),
        0xffff_ffff_ffff_ffff)
  }

  /** A lone copy that reaches past the image is refused with the end it would need. */
  lemma OutOfRangeReports(env: Env, image: seq<byte>, bp: Blkptr, i: nat)
    requires |image| < TWO64 && !bp.embedded && bp.lsizeRaw < 0x1_0000
    requires i < 3 && FirstUsed(bp, i) && !bp.dvas[i].IsEmpty() && forall j :: i < j < 3 ==> bp.dvas[j].IsEmpty()
    requires |image| < EndOf(bp.dvas[i].offsetSectors, bp.psizeRaw)
    ensures ReadBlock(env, image, bp) == Err(Truncated(DvaRange, EndOf(bp.dvas[i].offsetSectors, bp.psizeRaw), |image|))
  {
    hide Decompress, CompressFromRaw, Verify;
  }

  /** A hole of any size up to 32 MiB reads as zeros; a block said to be empty or larger is
      refused before anything is read. */
  lemma HolesAndBombs(env: Env, image: seq<byte>, bp: Blkptr)
    ensures !bp.embedded && FirstUsed(bp, 2) && bp.dvas[2].IsEmpty() && bp.lsizeRaw < 0x1_0000 ==>
      ReadBlock(env, image, bp) == Ok(Block(Repeat<byte>(0, 512 * (bp.lsizeRaw + 1)), None, 0))
    ensures !bp.embedded && bp.lsizeRaw >= 0x1_0000 ==>
      ReadBlock(env, image, bp) == Err(AllocationBomb(512 * (bp.lsizeRaw + 1), 0x200_0000))
    ensures bp.embedded && (bp.embeddedLsize == 0 || bp.embeddedLsize > 0x200_0000) ==>
      ReadBlock(env, image, bp) == Err(AllocationBomb(bp.embeddedLsize, 0x200_0000))
  {
    hide ReadCopies, Unpack;
  }

  /** The auditor's answer by the pointer's fields: nothing to verify in an embedded pointer
      or hole, a bomb, checksum functions 0 to 2, an unreadable or all-zero block, or the
      reader's own comparison. */
  lemma VerdictByFields(env: Env, image: seq<byte>, bp: Blkptr, i: nat, raw: seq<byte>)
    ensures bp.embedded || bp.IsHole() ==> Verdict(env, image, bp) == Unverified
    ensures !bp.embedded && !bp.IsHole() && bp.lsizeRaw >= 0x1_0000 ==>
      Verdict(env, image, bp) == Bomb(512 * (bp.lsizeRaw + 1), 0x200_0000)
    ensures !bp.embedded && bp.lsizeRaw < 0x1_0000 && bp.checksum <= 2 ==> Verdict(env, image, bp) == Unverified
    ensures (!bp.embedded && !bp.IsHole() && bp.lsizeRaw < 0x1_0000 && bp.checksum > 2
             && forall j :: 0 <= j < 3 ==> Raw(image, bp, j) == None) ==>
      Verdict(env, image, bp) == Unreadable
    ensures (|image| < TWO64 && i < 3 && FirstUsed(bp, i) && LiesAt(image, bp.dvas[i], raw)
             && !bp.embedded && bp.lsizeRaw < 0x1_0000 && bp.checksum > 2 && |raw| == 512 * (bp.psizeRaw + 1)) ==>
      Verdict(env, image, bp)
      == if forall k :: 0 <= k < |raw| ==> raw[k] == 0 then Unreadable
         else match Verify(env.sha256, ChecksumFromRaw(bp.checksum), bp.byteorder, raw, bp.checksumWords)
              case Some(true) => Good
              case Some(false) => Mismatch
              case None => Unverified
  {
    hide Raw, Verify;
    if |image| < TWO64 && i < 3 && FirstUsed(bp, i) && LiesAt(image, bp.dvas[i], raw)
       && !bp.embedded && |raw| == 512 * (bp.psizeRaw + 1) {
      RawIs(image, bp, i, raw);
      assert !bp.dvas[i].IsEmpty();
      forall j | 0 <= j < i ensures Raw(image, bp, j) == None {
        EmptyCopy(image, bp, j);
      }
      FirstIs(image, bp, i);
    }
  }

  lemma FirstIs(image: seq<byte>, bp: Blkptr, i: nat)
    requires i < 3 && Raw(image, bp, i).Some? && forall j :: 0 <= j < i ==> Raw(image, bp, j) == None
    ensures FirstInRange(image, bp, 0) == i
  {
    hide Raw;
  }

  // ---- a false alarm -------------------------------------------------------

  function Sector(v: byte): (s: seq<byte>)
    ensures |s| == 512
  {
    Repeat(v, 512)
  }

  /** An inflate that refuses sectors of ones, and a hash that tells sectors by their first byte. */
  function SectorEnv(): Env {
    Env(Codecs((src: seq<byte>, n: nat) => None,
               (src: seq<byte>, n: nat) => if src == Sector(1) then None else Some(src),
               (src: seq<byte>, n: nat) => None),
        (src: seq<byte>) => if src == [] then Cksum(0, 0, 0, 0) else Cksum(src[0], 0, 0, 0))
  }

  /** Two copies, at the first two sectors, under one checksum that is the second's. */
  function SectorPointer(): Blkptr {
    BlkptrFields([Dva(0, 1, 0, false), Dva(0, 1, 1, false), NO_DVA], 0, 0, 5, false, 8, 0, 0, false, Little, 0, 0,
                 Cksum(2, 0, 0, 0), 0, 0, Repeat(0, BPE_PAYLOAD_SIZE))
  }

  function SectorImage(): seq<byte> { Repeat(0, BOOT_SKEW) + Sector(1) + Sector(2) }

  lemma SectorCopies()
    ensures Raw(SectorImage(), SectorPointer(), 0) == Some(Sector(1))
    ensures Raw(SectorImage(), SectorPointer(), 1) == Some(Sector(2))
  {
    var image := SectorImage();
    assert image[BOOT_SKEW..BOOT_SKEW + 512] == Sector(1);
    assert image[BOOT_SKEW + 512..BOOT_SKEW + 1024] == Sector(2);
  }

  lemma SectorPointerReads()
    ensures OnDisk(SectorPointer()) && Kind(SectorPointer()).Sha256? && SectorPointer().LsizeBytes() == 512
    ensures CompressFromRaw(SectorPointer().compression as int) == Gzip(5)
    ensures SectorPointer().checksumWords == Cksum(2, 0, 0, 0)
  {
    assert !SectorPointer().dvas[0].IsEmpty();
  }

  /** An image on which the auditor reports a mismatch and the reader serves a verified block. */
  lemma FalseAlarmHappens()
    ensures var env, image, bp := SectorEnv(), SectorImage(), SectorPointer();
      && Verdict(env, image, bp) == Mismatch
      && ReadBlock(env, image, bp) == Ok(Block(Sector(2), Some(true), 1))
  {
    hide SectorImage, Raw, SectorPointer, OnDisk, Kind, CompressFromRaw;
    SectorPointerReads();
    var env, image, bp := SectorEnv(), SectorImage(), SectorPointer();
    SectorCopies();
    var one, two := Sector(1), Sector(2);
    assert one[0] == 1 && two[0] == 2;
    assert one != two && two[..512] == two;
    assert Unpack(env, bp, one).Err? && Unpack(env, bp, two) == Ok(two);
    FalseAlarm(env, image, bp);
    assert ReadCopy(env, image, bp, 1) == Ok(Block(two, Some(true), 1));
    ReadUsesLowestUsableCopy(env, image, bp, 1);
    assert !Usable(env, image, bp, 0) && Usable(env, image, bp, 1);
  }
}
