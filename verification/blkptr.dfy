/** The 128-byte block pointer (core/src/blkptr.rs): decoding, the bit-packing
    printer it inverts, and the two byte orders. */
module BlockPointer {
  import opened Arithmetic
  import opened Bytes
  import opened Checksum

  const BOOT_SKEW := 0x0040_0000
  const BPE_PAYLOAD_SIZE := 112
  const BLKPTR_SIZE := 128

  datatype Dva = Dva(vdev: nat, asizeSectors: nat, offsetSectors: nat, gang: bool) {
    predicate IsEmpty() { vdev == 0 && asizeSectors == 0 && offsetSectors == 0 }

    /** The 64-bit shift drops high bits; the addition saturates. */
    function PhysicalByteOffset(): nat {
      Min(offsetSectors * 512 % TWO64 + BOOT_SKEW, TWO64 - 1)
    }
  }

  const NO_DVA := Dva(0, 0, 0, false)

  datatype BlkptrFields = BlkptrFields(
    dvas: seq<Dva>, lsizeRaw: nat, psizeRaw: nat, compression: byte, embedded: bool, checksum: byte,
    objectType: byte, level: nat, dedup: bool, byteorder: Endian, logicalBirth: nat, fill: nat,
    checksumWords: Cksum, embeddedLsize: nat, embeddedPsize: nat, payload: seq<byte>)
  {
    function LsizeBytes(): nat { if embedded then embeddedLsize else (lsizeRaw + 1) * 512 }

    function PsizeBytes(): nat { if embedded then embeddedPsize else (psizeRaw + 1) * 512 }

    predicate IsHole() { !embedded && forall i :: 0 <= i < |dvas| ==> dvas[i].IsEmpty() }

    function EmbeddedData(): seq<byte> {
      if embedded then payload[..Min(embeddedPsize, |payload|)] else []
    }
  }

  /** The Rust type fixes the array lengths. */
  type Blkptr = b: BlkptrFields | |b.dvas| == 3 && |b.payload| == BPE_PAYLOAD_SIZE
    witness BlkptrFields(
      [NO_DVA, NO_DVA, NO_DVA], 0, 0, 0, false, 0, 0, 0, false, Little, 0, 0, Cksum(0, 0, 0, 0), 0, 0,
      seq(BPE_PAYLOAD_SIZE, _ => 0))

  /** The field of `size` values that starts at the bit of weight `base`. Bit positions
      of the pointer's words are written below as these weights. */
  function Field(x: nat, base: nat, size: nat): (f: nat)
    requires base > 0 && size > 0
    ensures f < size
  {
    x / base % size
  }

  // ---- decoding ------------------------------------------------------------

  function ParseDva(e: Endian, bp: seq<byte>, off: nat): Dva {
    var w0 := ReadU64(e, bp, off);
    var w1 := ReadU64(e, bp, off + 8);
    Dva(Field(w0, 0x1_0000_0000, 0x100_0000), Field(w0, 1, 0x100_0000),
        w1 % 0x8000_0000_0000_0000, Field(w1, 0x8000_0000_0000_0000, 2) == 1)
  }

  /** One region of the embedded payload; zero when the pointer is cut short. */
  function Region(bp: seq<byte>, start: nat, end: nat): (r: seq<byte>)
    requires start <= end
    ensures |r| == end - start
  {
    if end <= |bp| then bp[start..end] else Repeat(0, end - start)
  }

  /** Everything but the block property word and the word at 88. */
  function Payload(bp: seq<byte>): (r: seq<byte>)
    ensures |r| == BPE_PAYLOAD_SIZE
  {
    Region(bp, 0, 48) + Region(bp, 56, 88) + Region(bp, 96, 128)
  }

  function Parse(bp: seq<byte>, e: Endian): Blkptr {
    var prop := ReadU64(e, bp, 48);
    var embedded := Field(prop, 0x80_0000_0000, 2) == 1;
    BlkptrFields(
      if embedded then [NO_DVA, NO_DVA, NO_DVA]
      else [ParseDva(e, bp, 0), ParseDva(e, bp, 16), ParseDva(e, bp, 32)],
      Field(prop, 1, 0x1_0000), Field(prop, 0x1_0000, 0x1_0000), Field(prop, 0x1_0000_0000, 0x80), embedded,
      Field(prop, 0x100_0000_0000, 256), Field(prop, 0x1_0000_0000_0000, 256),
      Field(prop, 0x100_0000_0000_0000, 32), Field(prop, 0x4000_0000_0000_0000, 2) == 1,
      if Field(prop, 0x8000_0000_0000_0000, 2) == 1 then Little else Big,
      if embedded then 0 else ReadU64(e, bp, 80),
      if embedded then 0 else ReadU64(e, bp, 88),
      if embedded then Cksum(0, 0, 0, 0)
      else Cksum(ReadU64(e, bp, 96), ReadU64(e, bp, 104), ReadU64(e, bp, 112), ReadU64(e, bp, 120)),
      if embedded then Field(prop, 1, 0x200_0000) + 1 else 0,
      if embedded then Field(prop, 0x200_0000, 0x80) + 1 else 0,
      if embedded then Payload(bp) else Repeat(0, BPE_PAYLOAD_SIZE))
  }

  /** Copies the three payload regions into the caller's zeroed buffer. */
  method GatherBpePayload(bp: seq<byte>, out: array<byte>)
    requires out.Length == BPE_PAYLOAD_SIZE
    requires forall i :: 0 <= i < out.Length ==> out[i] == 0
    modifies out
    ensures out[..] == Payload(bp)
  {
    CopyRegion(bp, out, 0, 48, 0);
    CopyRegion(bp, out, 56, 88, 48);
    CopyRegion(bp, out, 96, 128, 80);
    assert out[..] == out[..48] + out[48..80] + out[80..];
  }

  method CopyRegion(bp: seq<byte>, out: array<byte>, start: nat, end: nat, dst: nat)
    requires start <= end && dst + (end - start) <= out.Length
    requires forall i :: dst <= i < out.Length ==> out[i] == 0
    modifies out
    ensures out[dst..dst + (end - start)] == Region(bp, start, end)
    ensures out[..dst] == old(out[..dst])
    ensures forall i :: dst + (end - start) <= i < out.Length ==> out[i] == 0
  {
    if end <= |bp| {
      for i := 0 to end - start
        invariant out[dst..dst + i] == bp[start..start + i]
        invariant out[..dst] == old(out[..dst])
        invariant forall k :: dst + i <= k < out.Length ==> out[k] == 0
      {
        out[dst + i] := bp[start + i];
        assert out[dst..dst + i + 1] == out[dst..dst + i] + [bp[start + i]];
      }
    }
  }

  method FillDvas(bp: seq<byte>, e: Endian) returns (dvas: array<Dva>)
    ensures fresh(dvas)
    ensures dvas[..] == [ParseDva(e, bp, 0), ParseDva(e, bp, 16), ParseDva(e, bp, 32)]
  {
    dvas := new Dva[3](_ => NO_DVA);
    for i := 0 to 3
      invariant forall k :: 0 <= k < i ==> dvas[k] == ParseDva(e, bp, k * 16)
    {
      dvas[i] := ParseDva(e, bp, i * 16);
    }
    assert dvas[0] == ParseDva(e, bp, 0) && dvas[1] == ParseDva(e, bp, 16) && dvas[2] == ParseDva(e, bp, 32);
  }

  method FillChecksumWords(bp: seq<byte>, e: Endian) returns (words: array<u64>)
    ensures fresh(words) && words.Length == 4
    ensures Cksum(words[0], words[1], words[2], words[3])
         == Cksum(ReadU64(e, bp, 96), ReadU64(e, bp, 104), ReadU64(e, bp, 112), ReadU64(e, bp, 120))
  {
    words := new u64[4](_ => 0);
    for i := 0 to 4
      invariant forall k :: 0 <= k < i ==> words[k] == ReadU64(e, bp, 96 + k * 8)
    {
      words[i] := ReadU64(e, bp, 96 + i * 8);
    }
  }

  /** Decoding as the source does it: arrays filled slot by slot. */
  method ParseBlkptr(bp: seq<byte>, e: Endian) returns (r: Blkptr)
    ensures r == Parse(bp, e)
  {
    hide Field, ReadNat, Payload, ParseDva;
    var prop := ReadU64(e, bp, 48);
    var embedded := Field(prop, 0x80_0000_0000, 2) == 1;
    var dvas := [NO_DVA, NO_DVA, NO_DVA];
    var cksum := Cksum(0, 0, 0, 0);
    var payload := new byte[BPE_PAYLOAD_SIZE](_ => 0);
    var lsize, psize, fill, birth := 0, 0, 0, 0;
    if embedded {
      lsize := Field(prop, 1, 0x200_0000) + 1;
      psize := Field(prop, 0x200_0000, 0x80) + 1;
      GatherBpePayload(bp, payload);
    } else {
      var slots := FillDvas(bp, e);
      dvas := slots[..];
      birth := ReadU64(e, bp, 80);
      fill := ReadU64(e, bp, 88);
      var words := FillChecksumWords(bp, e);
      cksum := Cksum(words[0], words[1], words[2], words[3]);
      assert payload[..] == Repeat(0, BPE_PAYLOAD_SIZE);
    }
    r := BlkptrFields(
      dvas, Field(prop, 1, 0x1_0000), Field(prop, 0x1_0000, 0x1_0000), Field(prop, 0x1_0000_0000, 0x80), embedded,
      Field(prop, 0x100_0000_0000, 256), Field(prop, 0x1_0000_0000_0000, 256),
      Field(prop, 0x100_0000_0000_0000, 32), Field(prop, 0x4000_0000_0000_0000, 2) == 1,
      if Field(prop, 0x8000_0000_0000_0000, 2) == 1 then Little else Big, birth, fill, cksum,
      lsize, psize, payload[..]);
  }

  // ---- printing ------------------------------------------------------------

  function Bit(b: bool): (n: nat)
    ensures n < 2
  {
    if b then 1 else 0
  }

  predicate DvaInRange(d: Dva) {
    d.vdev < 0x100_0000 && d.asizeSectors < 0x100_0000 && d.offsetSectors < 0x8000_0000_0000_0000
  }

  /** Bits the reader ignores: the grid byte, the top byte, and reserved bit 61. */
  datatype Ignored = Ignored(grid: byte, top: byte, bit61: bool, word56: u64, word64: u64, word72: u64)

  function DvaWord0(d: Dva, g: Ignored): u64
    requires DvaInRange(d)
  {
    d.asizeSectors + 0x100_0000 * (g.grid as int + 256 * (d.vdev + 0x100_0000 * g.top as int))
  }

  function DvaWord1(d: Dva): u64
    requires DvaInRange(d)
  {
    d.offsetSectors + 0x8000_0000_0000_0000 * Bit(d.gang)
  }

  /** The bits of the property word above the two sizes. */
  function PropHigh(b: Blkptr, g: Ignored): (h: nat)
    requires b.compression < 0x80 && b.level < 32
    ensures h < 0x1_0000_0000
  {
    b.compression as int + 0x80 * (Bit(b.embedded) + 2 * (b.checksum as int + 256 * (b.objectType as int + 256 *
      (b.level + 32 * (Bit(g.bit61) + 2 * (Bit(b.dedup) + 2 * Bit(b.byteorder.Little?)))))))
  }

  /** A pointer that a writer of on-disk, non-embedded pointers can express. */
  predicate Printable(b: Blkptr) {
    && !b.embedded && b.compression < 0x80 && b.level < 32
    && DvaInRange(b.dvas[0]) && DvaInRange(b.dvas[1]) && DvaInRange(b.dvas[2])
    && b.lsizeRaw < 0x1_0000 && b.psizeRaw < 0x1_0000 && b.logicalBirth < TWO64 && b.fill < TWO64
    && b.embeddedLsize == 0 && b.embeddedPsize == 0 && b.payload == Repeat(0, BPE_PAYLOAD_SIZE)
  }

  /** The sixteen words of a non-embedded pointer. */
  function BlkptrWords(b: Blkptr, g: Ignored): (ws: seq<u64>)
    requires Printable(b)
    ensures |ws| == 16
  {
    [DvaWord0(b.dvas[0], g), DvaWord1(b.dvas[0]),
     DvaWord0(b.dvas[1], g), DvaWord1(b.dvas[1]),
     DvaWord0(b.dvas[2], g), DvaWord1(b.dvas[2]),
     b.lsizeRaw + 0x1_0000 * (b.psizeRaw + 0x1_0000 * PropHigh(b, g)),
     g.word56, g.word64, g.word72, b.logicalBirth, b.fill,
     b.checksumWords.w0, b.checksumWords.w1, b.checksumWords.w2, b.checksumWords.w3]
  }

  function PrintWords(ws: seq<u64>, e: Endian): (bs: seq<byte>)
    ensures |bs| == 8 * |ws|
  {
    if ws == [] then [] else NatBytes(e, ws[0], 8) + PrintWords(ws[1..], e)
  }

  function PrintBlkptr(b: Blkptr, g: Ignored, e: Endian): seq<byte>
    requires Printable(b)
  {
    PrintWords(BlkptrWords(b, g), e)
  }

  lemma {:induction false} PrintedWord(ws: seq<u64>, e: Endian, i: nat)
    requires i < |ws|
    ensures ReadU64(e, PrintWords(ws, e), 8 * i) == ws[i]
    decreases i
  {
    Pow256Values();
    var bs := PrintWords(ws, e);
    if i == 0 {
      assert bs[0..8] == NatBytes(e, ws[0], 8);
      ReadPrinted(e, bs, 0, ws[0], 8);
    } else {
      PrintedWord(ws[1..], e, i - 1);
      assert bs[8 * i..8 * i + 8] == PrintWords(ws[1..], e)[8 * (i - 1)..8 * (i - 1) + 8];
    }
  }

  /** A field is found again between whatever lies below and above it. */
  lemma FieldOf(x: nat, lo: nat, base: nat, v: nat, size: nat, hi: nat)
    requires lo < base && v < size && x == lo + base * (v + size * hi)
    ensures Field(x, base, size) == v
  {
    DivModOf(x, base, v + size * hi, lo);
    DivModOf(v + size * hi, size, hi, v);
  }

  lemma DvaRoundTrip(d: Dva, g: Ignored)
    requires DvaInRange(d)
    ensures Field(DvaWord0(d, g), 0x1_0000_0000, 0x100_0000) == d.vdev
    ensures Field(DvaWord0(d, g), 1, 0x100_0000) == d.asizeSectors
    ensures DvaWord1(d) % 0x8000_0000_0000_0000 == d.offsetSectors
    ensures Field(DvaWord1(d), 0x8000_0000_0000_0000, 2) == Bit(d.gang)
  {
    var w0, w1 := DvaWord0(d, g), DvaWord1(d);
    FieldOf(w0, 0, 1, d.asizeSectors, 0x100_0000, g.grid as int + 256 * (d.vdev + 0x100_0000 * g.top as int));
    FieldOf(w0, d.asizeSectors + 0x100_0000 * g.grid as int, 0x1_0000_0000, d.vdev, 0x100_0000, g.top as int);
    FieldOf(w1, d.offsetSectors, 0x8000_0000_0000_0000, Bit(d.gang), 2, 0);
    DivModOf(w1, 0x8000_0000_0000_0000, Bit(d.gang), d.offsetSectors);
  }

  lemma PropHighRoundTrip(b: Blkptr, g: Ignored, lo: nat)
    requires b.compression < 0x80 && b.level < 32 && lo < 0x1_0000_0000
    ensures var p := lo + 0x1_0000_0000 * PropHigh(b, g);
      && Field(p, 0x1_0000_0000, 0x80) == b.compression as int && Field(p, 0x80_0000_0000, 2) == Bit(b.embedded)
      && Field(p, 0x100_0000_0000, 256) == b.checksum as int && Field(p, 0x1_0000_0000_0000, 256) == b.objectType as int
      && Field(p, 0x100_0000_0000_0000, 32) == b.level && Field(p, 0x4000_0000_0000_0000, 2) == Bit(b.dedup)
      && Field(p, 0x8000_0000_0000_0000, 2) == Bit(b.byteorder.Little?)
  {
    hide Field;
    var p := lo + 0x1_0000_0000 * PropHigh(b, g);
    var o, d, j, lv, t, k, e, c := Bit(b.byteorder.Little?), Bit(b.dedup), Bit(g.bit61), b.level,
      b.objectType as int, b.checksum as int, Bit(b.embedded), b.compression as int;
    var h62 := d + 2 * o;
    var h61 := j + 2 * h62;
    var h56 := lv + 32 * h61;
    var h48 := t + 256 * h56;
    var h40 := k + 256 * h48;
    var h39 := e + 2 * h40;
    LowPropFields(p, lo, c, h39, e, h40, k, h48);
    HighPropFields(p, p - 0x1_0000_0000_0000 * h48, t, h56, lv, h61, j, h62, d, o);
  }

  lemma LowPropFields(p: nat, lo: nat, c: nat, h39: nat, e: nat, h40: nat, k: nat, h48: nat)
    requires lo < 0x1_0000_0000 && c < 0x80 && e < 2 && k < 256
    requires p == lo + 0x1_0000_0000 * (c + 0x80 * h39) && h39 == e + 2 * h40 && h40 == k + 256 * h48
    ensures Field(p, 0x1_0000_0000, 0x80) == c
    ensures Field(p, 0x80_0000_0000, 2) == e
    ensures Field(p, 0x100_0000_0000, 256) == k
  {
    hide Field;
    FieldOf(p, lo, 0x1_0000_0000, c, 0x80, h39);
    FieldOf(p, lo + 0x1_0000_0000 * c, 0x80_0000_0000, e, 2, h40);
    FieldOf(p, lo + 0x1_0000_0000 * c + 0x80_0000_0000 * e, 0x100_0000_0000, k, 256, h48);
  }

  lemma HighPropFields(
      p: nat, lo: nat, t: nat, h56: nat, lv: nat, h61: nat, j: nat, h62: nat, d: nat, o: nat)
    requires lo < 0x1_0000_0000_0000 && t < 256 && lv < 32 && j < 2 && d < 2 && o < 2
    requires p == lo + 0x1_0000_0000_0000 * (t + 256 * h56) && h56 == lv + 32 * h61
    requires h61 == j + 2 * h62 && h62 == d + 2 * o
    ensures Field(p, 0x1_0000_0000_0000, 256) == t
    ensures Field(p, 0x100_0000_0000_0000, 32) == lv
    ensures Field(p, 0x4000_0000_0000_0000, 2) == d
    ensures Field(p, 0x8000_0000_0000_0000, 2) == o
  {
    hide Field;
    FieldOf(p, lo, 0x1_0000_0000_0000, t, 256, h56);
    FieldOf(p, lo + 0x1_0000_0000_0000 * t, 0x100_0000_0000_0000, lv, 32, h61);
    FieldOf(p, p - 0x4000_0000_0000_0000 * h62, 0x4000_0000_0000_0000, d, 2, o);
    FieldOf(p, p - 0x8000_0000_0000_0000 * o, 0x8000_0000_0000_0000, o, 2, 0);
  }

  /** Decoding inverts printing in both byte orders, whatever the ignored bits hold. */
  lemma ParsePrinted(b: Blkptr, g: Ignored, e: Endian)
    requires Printable(b)
    ensures Parse(PrintBlkptr(b, g, e), e) == b
  {
    hide PrintWords, Parse;
    WordsRead(BlkptrWords(b, g), e);
    ParseFromWords(PrintBlkptr(b, g, e), b, g, e);
  }

  lemma ParseFromWords(bp: seq<byte>, b: Blkptr, g: Ignored, e: Endian)
    requires Printable(b)
    requires ReadU64(e, bp, 0) == DvaWord0(b.dvas[0], g) && ReadU64(e, bp, 8) == DvaWord1(b.dvas[0])
    requires ReadU64(e, bp, 16) == DvaWord0(b.dvas[1], g) && ReadU64(e, bp, 24) == DvaWord1(b.dvas[1])
    requires ReadU64(e, bp, 32) == DvaWord0(b.dvas[2], g) && ReadU64(e, bp, 40) == DvaWord1(b.dvas[2])
    requires ReadU64(e, bp, 48) == b.lsizeRaw + 0x1_0000 * (b.psizeRaw + 0x1_0000 * PropHigh(b, g))
    requires ReadU64(e, bp, 80) == b.logicalBirth && ReadU64(e, bp, 88) == b.fill
    requires Cksum(ReadU64(e, bp, 96), ReadU64(e, bp, 104), ReadU64(e, bp, 112), ReadU64(e, bp, 120)) == b.checksumWords
    ensures Parse(bp, e) == b
  {
    hide ReadNat, Field, DvaWord0, DvaWord1, PropHigh, ParseDva;
    var p, h := ReadU64(e, bp, 48), PropHigh(b, g);
    PropHighRoundTrip(b, g, b.lsizeRaw + 0x1_0000 * b.psizeRaw);
    FieldOf(p, 0, 1, b.lsizeRaw, 0x1_0000, b.psizeRaw + 0x1_0000 * h);
    FieldOf(p, b.lsizeRaw, 0x1_0000, b.psizeRaw, 0x1_0000, h);
    DvaPrinted(b.dvas[0], g, e, bp, 0);
    DvaPrinted(b.dvas[1], g, e, bp, 16);
    DvaPrinted(b.dvas[2], g, e, bp, 32);
    assert [b.dvas[0], b.dvas[1], b.dvas[2]] == b.dvas;
  }

  lemma WordsRead(ws: seq<u64>, e: Endian)
    requires |ws| == 16
    ensures var bp := PrintWords(ws, e);
      && ReadU64(e, bp, 0) == ws[0] && ReadU64(e, bp, 8) == ws[1] && ReadU64(e, bp, 16) == ws[2]
      && ReadU64(e, bp, 24) == ws[3] && ReadU64(e, bp, 32) == ws[4] && ReadU64(e, bp, 40) == ws[5]
      && ReadU64(e, bp, 48) == ws[6] && ReadU64(e, bp, 80) == ws[10] && ReadU64(e, bp, 88) == ws[11]
      && ReadU64(e, bp, 96) == ws[12] && ReadU64(e, bp, 104) == ws[13] && ReadU64(e, bp, 112) == ws[14]
      && ReadU64(e, bp, 120) == ws[15]
  {
    var bp := PrintWords(ws, e);
    forall i | 0 <= i < 16 ensures ReadU64(e, bp, 8 * i) == ws[i] {
      PrintedWord(ws, e, i);
    }
    hide ReadNat, PrintWords;
    assert ReadU64(e, bp, 8 * 0) == ws[0] && ReadU64(e, bp, 8 * 1) == ws[1] && ReadU64(e, bp, 8 * 2) == ws[2];
    assert ReadU64(e, bp, 8 * 3) == ws[3] && ReadU64(e, bp, 8 * 4) == ws[4] && ReadU64(e, bp, 8 * 5) == ws[5];
    assert ReadU64(e, bp, 8 * 6) == ws[6] && ReadU64(e, bp, 8 * 10) == ws[10] && ReadU64(e, bp, 8 * 11) == ws[11];
    assert ReadU64(e, bp, 8 * 12) == ws[12] && ReadU64(e, bp, 8 * 13) == ws[13];
    assert ReadU64(e, bp, 8 * 14) == ws[14] && ReadU64(e, bp, 8 * 15) == ws[15];
  }

  lemma DvaPrinted(d: Dva, g: Ignored, e: Endian, bp: seq<byte>, off: nat)
    requires DvaInRange(d)
    requires ReadU64(e, bp, off) == DvaWord0(d, g) && ReadU64(e, bp, off + 8) == DvaWord1(d)
    ensures ParseDva(e, bp, off) == d
  {
    DvaRoundTrip(d, g);
  }

  // ---- embedded pointers ---------------------------------------------------

  /** An embedded pointer around 112 payload bytes; only the property word and the
      word at 88 lie between its three regions. */
  function PrintEmbedded(b: Blkptr, g: Ignored, e: Endian): (bp: seq<byte>)
    requires b.embedded && b.compression < 0x80 && b.level < 32
    requires 1 <= b.embeddedLsize <= 0x200_0000 && 1 <= b.embeddedPsize <= 0x80
    ensures |bp| == BLKPTR_SIZE
  {
    var prop := b.embeddedLsize - 1 + 0x200_0000 * (b.embeddedPsize - 1) + 0x1_0000_0000 * PropHigh(b, g);
    b.payload[..48] + NatBytes(e, prop, 8) + b.payload[48..80] + NatBytes(e, g.word56, 8) + b.payload[80..]
  }

  /** Every embedded field and all 112 payload bytes survive. */
  lemma ParseEmbedded(b: Blkptr, g: Ignored, e: Endian)
    requires b.embedded && b.compression < 0x80 && b.level < 32
    requires 1 <= b.embeddedLsize <= 0x200_0000 && 1 <= b.embeddedPsize <= 0x80
    ensures var r := Parse(PrintEmbedded(b, g, e), e);
      && r.embedded && r.payload == b.payload
      && r.embeddedLsize == b.embeddedLsize && r.embeddedPsize == b.embeddedPsize
      && r.compression == b.compression && r.checksum == b.checksum && r.objectType == b.objectType
      && r.level == b.level && r.dedup == b.dedup && r.byteorder == b.byteorder
  {
    hide Parse, PrintEmbedded;
    EmbeddedRegions(b, g, e);
    ParseFromEmbedded(PrintEmbedded(b, g, e), b, g, e);
  }

  lemma ParseFromEmbedded(bp: seq<byte>, b: Blkptr, g: Ignored, e: Endian)
    requires b.embedded && b.compression < 0x80 && b.level < 32
    requires 1 <= b.embeddedLsize <= 0x200_0000 && 1 <= b.embeddedPsize <= 0x80
    requires ReadU64(e, bp, 48)
          == b.embeddedLsize - 1 + 0x200_0000 * (b.embeddedPsize - 1) + 0x1_0000_0000 * PropHigh(b, g)
    ensures var r := Parse(bp, e);
      && r.embedded && r.payload == Payload(bp)
      && r.embeddedLsize == b.embeddedLsize && r.embeddedPsize == b.embeddedPsize
      && r.compression == b.compression && r.checksum == b.checksum && r.objectType == b.objectType
      && r.level == b.level && r.dedup == b.dedup && r.byteorder == b.byteorder
  {
    hide ReadNat, Field, PropHigh, Payload;
    var h := PropHigh(b, g);
    var prop := ReadU64(e, bp, 48);
    PropHighRoundTrip(b, g, b.embeddedLsize - 1 + 0x200_0000 * (b.embeddedPsize - 1));
    FieldOf(prop, 0, 1, b.embeddedLsize - 1, 0x200_0000, b.embeddedPsize - 1 + 0x80 * h);
    FieldOf(prop, b.embeddedLsize - 1, 0x200_0000, b.embeddedPsize - 1, 0x80, h);
  }

  lemma EmbeddedRegions(b: Blkptr, g: Ignored, e: Endian)
    requires b.embedded && b.compression < 0x80 && b.level < 32
    requires 1 <= b.embeddedLsize <= 0x200_0000 && 1 <= b.embeddedPsize <= 0x80
    ensures var bp := PrintEmbedded(b, g, e);
      && Payload(bp) == b.payload
      && ReadU64(e, bp, 48) == b.embeddedLsize - 1 + 0x200_0000 * (b.embeddedPsize - 1) + 0x1_0000_0000 * PropHigh(b, g)
  {
    var bp := PrintEmbedded(b, g, e);
    var prop := b.embeddedLsize - 1 + 0x200_0000 * (b.embeddedPsize - 1) + 0x1_0000_0000 * PropHigh(b, g);
    Pow256Values();
    hide PropHigh;
    assert bp[48..56] == NatBytes(e, prop, 8);
    ReadPrinted(e, bp, 48, prop, 8);
    assert bp[0..48] == b.payload[..48] && bp[56..88] == b.payload[48..80] && bp[96..128] == b.payload[80..];
  }

  /** No pointer decoded from bytes can trip the reader's size cap of 32 MiB. */
  lemma ParsedSizesAreSane(bp: seq<byte>, e: Endian)
    ensures 1 <= Parse(bp, e).LsizeBytes() <= 0x200_0000
    ensures 1 <= Parse(bp, e).PsizeBytes() <= 0x200_0000
  {
  }

  lemma ReadZeros(e: Endian, bs: seq<byte>, off: nat)
    requires forall i :: 0 <= i < |bs| ==> bs[i] == 0
    ensures ReadU64(e, bs, off) == 0
  {
    if off + 8 <= |bs| {
      ZeroValue(bs[off..off + 8]);
    }
  }

  /** A pointer of zero bytes is a hole of 512 bytes. */
  lemma ParseZeros(bs: seq<byte>, e: Endian)
    requires forall i :: 0 <= i < |bs| ==> bs[i] == 0
    ensures Parse(bs, e).IsHole() && Parse(bs, e).LsizeBytes() == 512
  {
    hide ReadNat;
    ReadZeros(e, bs, 0);
    ReadZeros(e, bs, 8);
    ReadZeros(e, bs, 16);
    ReadZeros(e, bs, 24);
    ReadZeros(e, bs, 32);
    ReadZeros(e, bs, 40);
    ReadZeros(e, bs, 48);
  }

  // ---- byte order ----------------------------------------------------------

  /** The pointer with every 64-bit word byte-swapped. */
  function SwapWords(bp: seq<byte>): (r: seq<byte>)
    requires |bp| == BLKPTR_SIZE
    ensures |r| == BLKPTR_SIZE
  {
    seq(BLKPTR_SIZE, i requires 0 <= i < BLKPTR_SIZE => bp[i / 8 * 8 + 7 - i % 8])
  }

  lemma {:induction false} ReverseAt(bs: seq<byte>, k: nat)
    requires k < |bs|
    ensures Reverse(bs)[k] == bs[|bs| - 1 - k]
  {
    if k < |bs| - 1 {
      ReverseAt(bs[1..], k);
    }
  }

  lemma SwappedWord(bp: seq<byte>, e: Endian, i: nat)
    requires |bp| == BLKPTR_SIZE && i < 16
    ensures ReadU64(e.Flip(), SwapWords(bp), 8 * i) == ReadU64(e, bp, 8 * i)
  {
    var w := bp[8 * i..8 * i + 8];
    var s := SwapWords(bp)[8 * i..8 * i + 8];
    forall k | 0 <= k < 8 ensures s[k] == Reverse(w)[k] {
      ReverseAt(w, k);
      assert (8 * i + k) / 8 == i && (8 * i + k) % 8 == k;
    }
    assert s == Reverse(w);
    ReverseSwapsOrder(w);
  }

  /** A non-embedded pointer written on a host of the other byte order decodes to the
      same pointer when read in that order. */
  lemma ParseSwapped(bp: seq<byte>, e: Endian)
    requires |bp| == BLKPTR_SIZE && !Parse(bp, e).embedded
    ensures Parse(SwapWords(bp), e.Flip()) == Parse(bp, e)
  {
    forall i | 0 <= i < 16 ensures ReadU64(e.Flip(), SwapWords(bp), 8 * i) == ReadU64(e, bp, 8 * i) {
      SwappedWord(bp, e, i);
    }
    hide ReadNat, Field;
    var s, f := SwapWords(bp), e.Flip();
    assert ReadU64(f, s, 8 * 0) == ReadU64(e, bp, 8 * 0) && ReadU64(f, s, 8 * 1) == ReadU64(e, bp, 8 * 1);
    assert ReadU64(f, s, 8 * 2) == ReadU64(e, bp, 8 * 2) && ReadU64(f, s, 8 * 3) == ReadU64(e, bp, 8 * 3);
    assert ReadU64(f, s, 8 * 4) == ReadU64(e, bp, 8 * 4) && ReadU64(f, s, 8 * 5) == ReadU64(e, bp, 8 * 5);
    assert ReadU64(f, s, 8 * 6) == ReadU64(e, bp, 8 * 6);
    assert ReadU64(f, s, 8 * 10) == ReadU64(e, bp, 8 * 10) && ReadU64(f, s, 8 * 11) == ReadU64(e, bp, 8 * 11);
    assert ReadU64(f, s, 8 * 12) == ReadU64(e, bp, 8 * 12) && ReadU64(f, s, 8 * 13) == ReadU64(e, bp, 8 * 13);
    assert ReadU64(f, s, 8 * 14) == ReadU64(e, bp, 8 * 14) && ReadU64(f, s, 8 * 15) == ReadU64(e, bp, 8 * 15);
  }

  // ---- a pointer by hand ---------------------------------------------------

  /** Sixteen words with a different value in every field. */
  function KnownWords(): (ws: seq<u64>)
    ensures |ws| == 16
  {
    [0x4_0000_0008, 0x8000_0000_0000_0007, 2, 1, 0, 0, 0xc30b_070f_0006_0009, 0, 0, 0, 22, 51,
     0xdead_beef, 61, 62, 63]
  }

  lemma KnownProperties()
    ensures var p := 0xc30b_070f_0006_0009;
      && Field(p, 1, 0x1_0000) == 9 && Field(p, 0x1_0000, 0x1_0000) == 6 && Field(p, 0x1_0000_0000, 0x80) == 15
      && Field(p, 0x80_0000_0000, 2) == 0 && Field(p, 0x100_0000_0000, 256) == 7
      && Field(p, 0x1_0000_0000_0000, 256) == 11 && Field(p, 0x100_0000_0000_0000, 32) == 3
      && Field(p, 0x4000_0000_0000_0000, 2) == 1 && Field(p, 0x8000_0000_0000_0000, 2) == 1
  {
  }

  lemma KnownDvas(e: Endian, bp: seq<byte>)
    requires ReadU64(e, bp, 0) == 0x4_0000_0008 && ReadU64(e, bp, 8) == 0x8000_0000_0000_0007
    requires ReadU64(e, bp, 16) == 2 && ReadU64(e, bp, 24) == 1 && ReadU64(e, bp, 32) == 0 && ReadU64(e, bp, 40) == 0
    ensures ParseDva(e, bp, 0) == Dva(4, 8, 7, true) && ParseDva(e, bp, 16) == Dva(0, 2, 1, false)
    ensures ParseDva(e, bp, 32) == Dva(0, 0, 0, false)
  {
    hide ReadNat;
  }

  /** What they decode to. */
  lemma KnownPointer(e: Endian)
    ensures var bp := Parse(PrintWords(KnownWords(), e), e);
      && bp.dvas == [Dva(4, 8, 7, true), Dva(0, 2, 1, false), Dva(0, 0, 0, false)]
      && bp.lsizeRaw == 9 && bp.psizeRaw == 6 && bp.compression == 15 && !bp.embedded && bp.checksum == 7
      && bp.objectType == 11 && bp.level == 3 && bp.dedup && bp.byteorder == Little
      && bp.logicalBirth == 22 && bp.fill == 51 && bp.checksumWords == Cksum(0xdead_beef, 61, 62, 63)
      && bp.dvas[0].PhysicalByteOffset() == 0x40_0000 + 7 * 512
  {
    hide PrintWords, ReadNat, Field, ParseDva;
    WordsRead(KnownWords(), e);
    KnownProperties();
    KnownDvas(e, PrintWords(KnownWords(), e));
  }

  /** When a pointer is a hole, and how large its data is on disk and in memory. */
  lemma SizesAndHoles(b: Blkptr)
    ensures b.LsizeBytes() == if b.embedded then b.embeddedLsize else 512 * (b.lsizeRaw + 1)
    ensures b.PsizeBytes() == if b.embedded then b.embeddedPsize else 512 * (b.psizeRaw + 1)
    ensures b.IsHole() <==> !b.embedded && forall i :: 0 <= i < 3 ==>
      b.dvas[i].vdev == 0 && b.dvas[i].asizeSectors == 0 && b.dvas[i].offsetSectors == 0
    ensures |b.EmbeddedData()| == if b.embedded then Min(b.embeddedPsize, 112) else 0
  {
  }

  /** A pointer cut short keeps the regions it holds whole; the others are zero. */
  lemma ShortPayload(bp: seq<byte>)
    ensures |bp| < 48 ==> Payload(bp) == Repeat<byte>(0, 112)
    ensures 48 <= |bp| < 88 ==> Payload(bp) == bp[..48] + Repeat<byte>(0, 64)
    ensures 88 <= |bp| < 128 ==> Payload(bp) == bp[..48] + bp[56..88] + Repeat<byte>(0, 32)
  {
  }

  /** An embedded pointer has no places on disk, no birth, no fill and no checksum. */
  lemma EmbeddedHasNoPlace(bp: seq<byte>, e: Endian)
    requires Parse(bp, e).embedded
    ensures var b := Parse(bp, e);
      && b.dvas == [Dva(0, 0, 0, false), Dva(0, 0, 0, false), Dva(0, 0, 0, false)]
      && b.logicalBirth == 0 && b.fill == 0 && b.checksumWords == Cksum(0, 0, 0, 0)
  {
    hide ReadNat, Field;
  }
}
