/** ZAP objects (core/src/zap.rs): array chunk chains, fat leaves, whole fat objects
    and micro blocks. Names are byte sequences. */
module Zap {
  import opened Arithmetic
  import opened Bytes

  const ZBT_MICRO := 0x8000_0000_0000_0003
  const ZBT_HEADER := 0x8000_0000_0000_0001
  const ZBT_LEAF := 0x8000_0000_0000_0000
  const ZAP_LEAF_MAGIC := 0x02ab_1eaf

  const CHUNK_SIZE := 24
  const LEAF_HDR_SIZE := 48
  const ARRAY_BYTES := 21
  const CHUNK_ARRAY := 251
  const CHUNK_ENTRY := 252
  const CHAIN_END := 0xffff

  datatype Named<+T> = Named(name: seq<byte>, value: T)

  // ---- array chunk chains --------------------------------------------------

  /** Where a leaf's chunks lie. */
  datatype Area = Area(leaf: seq<byte>, start: nat, nchunks: nat) {
    ghost predicate Valid() { start + nchunks * CHUNK_SIZE <= |leaf| }

    function Offset(ci: nat): nat { start + ci * CHUNK_SIZE }

    /** Chunk `nc` continues a chain. */
    predicate IsArray(nc: nat) { nc != CHAIN_END && nc < nchunks && U8At(leaf, Offset(nc)) == CHUNK_ARRAY }

    function Payload(nc: nat): seq<byte>
      requires Valid() && nc < nchunks
      ensures |Payload(nc)| == ARRAY_BYTES
    {
      ChunkFits(nc);
      leaf[Offset(nc) + 1..Offset(nc) + 1 + ARRAY_BYTES]
    }

    lemma ChunkFits(nc: nat)
      requires Valid() && nc < nchunks
      ensures Offset(nc) + CHUNK_SIZE <= |leaf|
    {
      assert nc * CHUNK_SIZE + CHUNK_SIZE <= nchunks * CHUNK_SIZE;
    }

    function Next(nc: nat): u16 { Le16(leaf, Offset(nc) + 1 + ARRAY_BYTES) }
  }

  /** The payload bytes met on at most `hops` chunks, stopping once `need` are there. */
  function Chain(a: Area, nc: nat, hops: nat, need: nat): seq<byte>
    requires a.Valid()
    decreases hops
  {
    if hops == 0 || need == 0 || !a.IsArray(nc) then []
    else a.Payload(nc) + Chain(a, a.Next(nc), hops - 1, if need <= ARRAY_BYTES then 0 else need - ARRAY_BYTES)
  }

  function ArrayBytes(a: Area, start: nat, want: nat): (bytes: seq<byte>)
    requires a.Valid()
    ensures |bytes| <= want
  {
    Take(Chain(a, start, a.nchunks, want), want)
  }

  function Lacking(out: seq<byte>, want: nat): nat { if |out| < want then want - |out| else 0 }

  lemma ChainStep(a: Area, out: seq<byte>, nc: nat, hops: nat, want: nat)
    requires a.Valid() && a.IsArray(nc) && hops > 0 && |out| < want
    ensures out + Chain(a, nc, hops, Lacking(out, want))
         == out + a.Payload(nc) + Chain(a, a.Next(nc), hops - 1, Lacking(out + a.Payload(nc), want))
  {
    Reassociate(out, a.Payload(nc), Chain(a, a.Next(nc), hops - 1, Lacking(out + a.Payload(nc), want)));
  }

  lemma ChainStops(a: Area, out: seq<byte>, nc: nat, hops: nat, want: nat)
    requires a.Valid() && (!a.IsArray(nc) || hops == 0 || |out| >= want)
    ensures out + Chain(a, nc, hops, Lacking(out, want)) == out
  {
  }

  /** The source's loop: it ends on every chunk graph, cyclic ones included. */
  method ArrayBytesAt(a: Area, start: u16, want: nat) returns (out: seq<byte>)
    requires a.Valid()
    ensures out == ArrayBytes(a, start, want)
  {
    hide Take, Chain, Area.Next;
    out := [];
    var nc: nat := start;
    var hops := 0;
    assert [] + Chain(a, start, a.nchunks, want) == Chain(a, start, a.nchunks, want);
    while nc != CHAIN_END && nc < a.nchunks && hops < a.nchunks && |out| < want
      invariant hops <= a.nchunks
      invariant out + Chain(a, nc, a.nchunks - hops, Lacking(out, want)) == Chain(a, start, a.nchunks, want)
      decreases a.nchunks - hops
    {
      if U8At(a.leaf, a.Offset(nc)) != CHUNK_ARRAY { break; }
      ChainStep(a, out, nc, a.nchunks - hops, want);
      out := out + a.Payload(nc);
      nc := a.Next(nc);
      hops := hops + 1;
    }
    ChainStops(a, out, nc, a.nchunks - hops, want);
    out := Take(out, want);
  }

  /** Pigeonhole: distinct numbers below `n` are at most `n` many. */
  lemma {:induction false} Pigeonhole(s: seq<nat>, n: nat)
    requires Distinct(s) && forall i :: 0 <= i < |s| ==> s[i] < n
    ensures |s| <= n
    decreases n
  {
    assert s == [] || s[0] < n;
    if n == 0 {
    } else {
      var t := Without(s, n - 1);
      Pigeonhole(t, n - 1);
    }
  }

  /** A distinct sequence without one value is shorter by at most one. */
  lemma {:induction false} Without(s: seq<nat>, v: nat) returns (t: seq<nat>)
    requires Distinct(s)
    ensures Distinct(t) && |s| <= |t| + 1
    ensures forall i :: 0 <= i < |t| ==> t[i] != v && t[i] in s
  {
    if v in s {
      var k :| 0 <= k < |s| && s[k] == v;
      t := s[..k] + s[k + 1..];
    } else {
      t := s;
    }
  }

  /** `chain` is a walk along the links: array chunks, each the successor of the one before. */
  predicate Linked(a: Area, chain: seq<nat>) {
    forall i :: 0 <= i < |chain| ==>
      a.IsArray(chain[i]) && (i + 1 < |chain| ==> a.Next(chain[i]) == chain[i + 1])
  }

  function Payloads(a: Area, chain: seq<nat>): (bytes: seq<byte>)
    requires a.Valid() && Linked(a, chain)
    ensures |bytes| == ARRAY_BYTES * |chain|
  {
    if chain == [] then [] else a.Payload(chain[0]) + Payloads(a, chain[1..])
  }

  /** Enough of the chain is there, or it really ends. */
  predicate Suffices(a: Area, chain: seq<nat>, need: nat) {
    chain != [] && (need <= ARRAY_BYTES * |chain| || !a.IsArray(a.Next(chain[|chain| - 1])))
  }

  lemma {:induction false} ChainFollows(a: Area, chain: seq<nat>, hops: nat, need: nat)
    requires a.Valid() && Linked(a, chain) && |chain| <= hops && Suffices(a, chain, need)
    ensures Take(Payloads(a, chain), need) == Take(Chain(a, chain[0], hops, need), need)
    decreases |chain|
  {
    hide Take, Area.Payload, Area.Next, Area.IsArray;
    var left: nat := if need <= ARRAY_BYTES then 0 else need - ARRAY_BYTES;
    if need == 0 {
      TakeNone(Payloads(a, chain), Chain(a, chain[0], hops, need));
    } else {
      LinkedTail(a, chain);
      var head, more := a.Payload(chain[0]), Chain(a, a.Next(chain[0]), hops - 1, left);
      if |chain| > 1 && left > 0 {
        ChainFollows(a, chain[1..], hops - 1, left);
      } else if left > 0 {
        ChainEnds(a, a.Next(chain[0]), hops - 1, left);
      }
      TakeHead(head, Payloads(a, chain[1..]), more, need);
    }
  }

  lemma ChainEnds(a: Area, nc: nat, hops: nat, need: nat)
    requires a.Valid() && !a.IsArray(nc)
    ensures Chain(a, nc, hops, need) == []
  {
  }

  lemma LinkedTail(a: Area, chain: seq<nat>)
    requires Linked(a, chain) && chain != []
    ensures a.IsArray(chain[0]) && Linked(a, chain[1..])
    ensures |chain| > 1 ==>
              chain[1..][0] == a.Next(chain[0]) && chain[1..][|chain| - 2] == chain[|chain| - 1]
  {
  }

  lemma TakeNone<T>(x: seq<T>, y: seq<T>)
    ensures Take(x, 0) == Take(y, 0)
  {
  }

  lemma TakeHead(head: seq<byte>, x: seq<byte>, y: seq<byte>, need: nat)
    requires need <= |head| || Take(x, need - |head|) == Take(y, need - |head|)
    ensures Take(head + x, need) == Take(head + y, need)
  {
    if need > |head| {
      assert Take(head + x, need) == head + Take(x, need - |head|);
      assert Take(head + y, need) == head + Take(y, need - |head|);
    } else {
      assert Take(head + x, need) == head[..need] == Take(head + y, need);
    }
  }

  /** A chain that visits no chunk twice is followed to its end, or until enough bytes are
      collected: the hop cap never cuts it short. */
  lemma AcyclicChainIsWhole(a: Area, chain: seq<nat>, want: nat)
    requires a.Valid() && Linked(a, chain) && Distinct(chain) && Suffices(a, chain, want)
    ensures ArrayBytes(a, chain[0], want) == Take(Payloads(a, chain), want)
  {
    Pigeonhole(chain, a.nchunks);
    ChainFollows(a, chain, a.nchunks, want);
  }

  // ---- fat leaves ----------------------------------------------------------

  function ChunkArea(blockSize: nat): nat
    requires blockSize > 0
  {
    var shift := TrailingZeros(blockSize);
    LEAF_HDR_SIZE + 2 * Power(2, if shift <= 5 then 0 else shift - 5)
  }

  /** The chunk area of a leaf, if the leaf is long enough to have one. */
  function LeafArea(leaf: seq<byte>, blockSize: nat): (area: Option<Area>)
    requires blockSize > 0
    ensures area.Some? ==> area.value.Valid()
  {
    var start := ChunkArea(blockSize);
    if start >= |leaf| then None
    else
      assert (|leaf| - start) / CHUNK_SIZE * CHUNK_SIZE <= |leaf| - start;
      Some(Area(leaf, start, (|leaf| - start) / CHUNK_SIZE))
  }

  function PopNul(name: seq<byte>): seq<byte> {
    if name != [] && name[|name| - 1] == 0 then name[..|name| - 1] else name
  }

  function NameAt(a: Area, off: nat): seq<byte>
    requires a.Valid()
  {
    PopNul(ArrayBytes(a, Le16(a.leaf, off + 4), Le16(a.leaf, off + 6)))
  }

  function ValueAt(a: Area, off: nat): seq<byte>
    requires a.Valid()
  {
    ArrayBytes(a, Le16(a.leaf, off + 8), Wanted(U8At(a.leaf, off + 1), Le16(a.leaf, off + 10)))
  }

  function Wanted(intSize: byte, numInts: u16): nat {
    MulNonneg(intSize, numInts);
    intSize * numInts
  }

  /** What chunk `ci` contributes to the listing: nothing unless it is an entry with a name. */
  function ListedAt(a: Area, ci: nat): seq<Named<seq<byte>>>
    requires a.Valid()
  {
    var off := a.Offset(ci);
    if U8At(a.leaf, off) != CHUNK_ENTRY || NameAt(a, off) == [] then []
    else [Named(NameAt(a, off), ValueAt(a, off))]
  }

  function ListedFrom(a: Area, ci: nat): seq<Named<seq<byte>>>
    requires a.Valid()
    decreases a.nchunks - ci
  {
    if ci >= a.nchunks then [] else ListedAt(a, ci) + ListedFrom(a, ci + 1)
  }

  function LeafEntries(leaf: seq<byte>, blockSize: nat): seq<Named<seq<byte>>>
    requires blockSize > 0
  {
    match LeafArea(leaf, blockSize)
    case None => []
    case Some(a) => ListedFrom(a, 0)
  }

  /** The first eight value bytes as one big-endian number. */
  function Folded(value: seq<byte>): u64 {
    var first := Take(value, 8);
    PowerGrows(|first|, 8);
    Pow256Values();
    BeNat(first)
  }

  lemma {:induction false} PowerGrows(m: nat, n: nat)
    requires m <= n
    ensures Power(256, m) <= Power(256, n)
    decreases n
  {
    if m < n { PowerGrows(m, n - 1); }
  }

  function Fold(entry: Named<seq<byte>>): Named<u64> { Named(entry.name, Folded(entry.value)) }

  function FoldAll(entries: seq<Named<seq<byte>>>): (r: seq<Named<u64>>)
    ensures |r| == |entries| && forall i :: 0 <= i < |r| ==> r[i] == Fold(entries[i])
    ensures forall i :: 0 <= i < |r| ==>
      r[i].name == entries[i].name && r[i].value == BeNat(Take(entries[i].value, 8))
  {
    seq(|entries|, i requires 0 <= i < |entries| => Fold(entries[i]))
  }

  lemma FoldAllAppend(x: seq<Named<seq<byte>>>, y: seq<Named<seq<byte>>>)
    ensures FoldAll(x + y) == FoldAll(x) + FoldAll(y)
  {
  }

  /** A number stored big-endian in at most eight bytes folds to itself, whatever bytes
      follow eight. */
  lemma FoldedNumber(v: nat, n: nat, rest: seq<byte>)
    requires n <= 8 && v < Power(256, n) && (n == 8 || rest == [])
    ensures Folded(BeBytes(v, n) + rest) == v
  {
    BeRoundTrip(v, n);
    if n == 8 {
      assert Take(BeBytes(v, 8) + rest, 8) == BeBytes(v, 8);
    } else {
      assert Take(BeBytes(v, n) + rest, 8) == BeBytes(v, n);
    }
  }

  method FoldValue(bytes: seq<byte>) returns (value: u64)
    ensures value == Folded(bytes) == BeNat(Take(bytes, 8))
  {
    var first := Take(bytes, 8);
    value := 0;
    var k := 0;
    while k < |first|
      invariant 0 <= k <= |first|
      invariant value == BeNat(first[..k])
    {
      assert first[..k + 1][..k] == first[..k];
      PowerGrows(k + 1, 8);
      Pow256Values();
      value := 256 * value + first[k];
      k := k + 1;
    }
    assert first[..k] == first;
  }

  lemma ListStep<T>(out: seq<T>, now: seq<T>, later: seq<T>)
    ensures out + (now + later) == out + now + later
  {
  }

  /** The reading of one entry, which both listings share. */
  method ReadEntry(a: Area, off: nat) returns (name: seq<byte>, value: seq<byte>)
    requires a.Valid()
    ensures name == NameAt(a, off) && value == ValueAt(a, off)
  {
    hide ArrayBytes, Wanted, ReadU16;
    name := ArrayBytesAt(a, Le16(a.leaf, off + 4), Le16(a.leaf, off + 6));
    if name != [] && name[|name| - 1] == 0 {
      name := name[..|name| - 1];
    }
    var want := Wanted(U8At(a.leaf, off + 1), Le16(a.leaf, off + 10));
    value := ArrayBytesAt(a, Le16(a.leaf, off + 8), want);
  }

  method FatLeafEntriesArrays(leaf: seq<byte>, blockSize: nat, out: seq<Named<seq<byte>>>)
    returns (out': seq<Named<seq<byte>>>)
    requires blockSize > 0
    ensures out' == out + LeafEntries(leaf, blockSize)
  {
    hide NameAt, ValueAt, Area.Offset, ChunkArea, U8At;
    out' := out;
    var chunkArea := ChunkArea(blockSize);
    if chunkArea >= |leaf| { return; }
    var a := LeafArea(leaf, blockSize).value;
    var ci := 0;
    while ci < a.nchunks
      invariant 0 <= ci <= a.nchunks
      invariant out' + ListedFrom(a, ci) == out + ListedFrom(a, 0)
    {
      ListStep(out', ListedAt(a, ci), ListedFrom(a, ci + 1));
      if U8At(leaf, a.Offset(ci)) == CHUNK_ENTRY {
        var name, value := ReadEntry(a, a.Offset(ci));
        if name != [] { out' := out' + [Named(name, value)]; }
      }
      ci := ci + 1;
    }
  }

  method FatLeafEntries(leaf: seq<byte>, blockSize: nat, out: seq<Named<u64>>)
    returns (out': seq<Named<u64>>)
    requires blockSize > 0
    ensures out' == out + FoldAll(LeafEntries(leaf, blockSize))
  {
    hide NameAt, ValueAt, Area.Offset, ChunkArea, U8At, Folded, ListedFrom, ListedAt;
    out' := out;
    var chunkArea := ChunkArea(blockSize);
    if chunkArea >= |leaf| { return; }
    var a := LeafArea(leaf, blockSize).value;
    var ci := 0;
    while ci < a.nchunks
      invariant 0 <= ci <= a.nchunks
      invariant out' + FoldAll(ListedFrom(a, ci)) == out + FoldAll(ListedFrom(a, 0))
    {
      FoldStep(a, ci, out');
      if U8At(leaf, a.Offset(ci)) == CHUNK_ENTRY {
        var name, bytes := ReadEntry(a, a.Offset(ci));
        var value := FoldValue(bytes);
        if name != [] { out' := out' + [Named(name, value)]; }
      }
      ci := ci + 1;
    }
    FoldEnd(a, ci, out');
  }

  lemma FoldStep(a: Area, ci: nat, out: seq<Named<u64>>)
    requires a.Valid() && ci < a.nchunks
    ensures out + FoldAll(ListedFrom(a, ci))
         == (if U8At(a.leaf, a.Offset(ci)) != CHUNK_ENTRY || NameAt(a, a.Offset(ci)) == [] then out
             else out + [Named(NameAt(a, a.Offset(ci)), Folded(ValueAt(a, a.Offset(ci))))])
            + FoldAll(ListedFrom(a, ci + 1))
  {
    hide NameAt, ValueAt, Area.Offset, U8At, Folded;
    FoldAllAppend(ListedAt(a, ci), ListedFrom(a, ci + 1));
    ListStep(out, FoldAll(ListedAt(a, ci)), FoldAll(ListedFrom(a, ci + 1)));
  }

  lemma FoldEnd(a: Area, ci: nat, out: seq<Named<u64>>)
    requires a.Valid() && ci >= a.nchunks
    ensures out + FoldAll(ListedFrom(a, ci)) == out
  {
  }

  // ---- fat objects ---------------------------------------------------------

  predicate LeafSignature(data: seq<byte>, off: nat) {
    Le64(data, off) == ZBT_LEAF && Le32(data, off + 24) == ZAP_LEAF_MAGIC
  }

  /** The probe from size `2^shift` on. */
  function ProbeFrom(data: seq<byte>, shift: nat): (size: nat)
    decreases 18 - shift
  {
    if shift > 17 || Power(2, shift) >= |data| then |data|
    else if LeafSignature(data, Power(2, shift)) then Power(2, shift)
    else ProbeFrom(data, shift + 1)
  }

  method FatBlockSize(data: seq<byte>) returns (size: nat)
    ensures size == ProbeFrom(data, 9)
  {
    var shift := 9;
    while shift <= 17
      invariant 9 <= shift <= 18
      invariant ProbeFrom(data, shift) == ProbeFrom(data, 9)
    {
      var bs := Power(2, shift);
      if bs >= |data| { break; }
      if LeafSignature(data, bs) { return bs; }
      shift := shift + 1;
    }
    size := |data|;
  }

  /** The entries of every leaf from position `off` on. */
  function FatFrom(data: seq<byte>, off: nat, bs: nat): seq<Named<seq<byte>>>
    requires bs > 0
    decreases |data| - off
  {
    if off + LEAF_HDR_SIZE > |data| then []
    else
      var leaf := data[off..Min(off + bs, |data|)];
      (if LeafSignature(leaf, 0) then LeafEntries(leaf, bs) else []) + FatFrom(data, off + bs, bs)
  }

  function FatEntries(data: seq<byte>): seq<Named<seq<byte>>> {
    var bs := ProbeFrom(data, 9);
    if bs == 0 then [] else FatFrom(data, bs, bs)
  }

  method FatListArrays(data: seq<byte>) returns (out: seq<Named<seq<byte>>>)
    ensures out == FatEntries(data)
  {
    hide LeafEntries, LeafSignature, ProbeFrom;
    var bs := FatBlockSize(data);
    out := [];
    if bs == 0 { return; }
    var off := bs;
    while off + LEAF_HDR_SIZE <= |data|
      invariant out + FatFrom(data, off, bs) == FatFrom(data, bs, bs)
    {
      var leaf := data[off..Min(off + bs, |data|)];
      ListStep(out, if LeafSignature(leaf, 0) then LeafEntries(leaf, bs) else [],
               FatFrom(data, off + bs, bs));
      if LeafSignature(leaf, 0) { out := FatLeafEntriesArrays(leaf, bs, out); }
      off := off + bs;
    }
  }

  method FatList(data: seq<byte>) returns (out: seq<Named<u64>>)
    ensures out == FoldAll(FatEntries(data))
  {
    hide LeafEntries, LeafSignature, ProbeFrom;
    var bs := FatBlockSize(data);
    out := [];
    if bs == 0 { return; }
    var off := bs;
    while off + LEAF_HDR_SIZE <= |data|
      invariant out + FoldAll(FatFrom(data, off, bs)) == FoldAll(FatFrom(data, bs, bs))
    {
      var leaf := data[off..Min(off + bs, |data|)];
      var now := if LeafSignature(leaf, 0) then LeafEntries(leaf, bs) else [];
      FoldAllAppend(now, FatFrom(data, off + bs, bs));
      ListStep(out, FoldAll(now), FoldAll(FatFrom(data, off + bs, bs)));
      if LeafSignature(leaf, 0) { out := FatLeafEntries(leaf, bs, out); }
      off := off + bs;
    }
  }

  // ---- micro objects -------------------------------------------------------

  const MZAP_HDR_SIZE := 64
  const MZAP_ENT_SIZE := 64
  const MZAP_NAME_LEN := 50

  /** The bytes before the first NUL. */
  function UpToNul(bytes: seq<byte>): (name: seq<byte>)
    ensures |name| <= |bytes|
  {
    if bytes == [] || bytes[0] == 0 then [] else [bytes[0]] + UpToNul(bytes[1..])
  }

  function MicroSlots(data: seq<byte>): nat {
    if |data| <= MZAP_HDR_SIZE then 0 else (|data| - MZAP_HDR_SIZE) / MZAP_ENT_SIZE
  }

  function MicroOffset(i: nat): nat { MZAP_HDR_SIZE + i * MZAP_ENT_SIZE }

  function MicroName(data: seq<byte>, i: nat): (field: seq<byte>)
    requires i < MicroSlots(data)
    ensures |field| == MZAP_NAME_LEN
  {
    data[MicroOffset(i) + 14..MicroOffset(i) + 14 + MZAP_NAME_LEN]
  }

  function MicroAt(data: seq<byte>, i: nat): seq<Named<u64>>
    requires i < MicroSlots(data)
  {
    var name := UpToNul(MicroName(data, i));
    if name == [] then [] else [Named(name, Le64(data, MicroOffset(i)))]
  }

  function MicroFrom(data: seq<byte>, i: nat): seq<Named<u64>>
    decreases MicroSlots(data) - i
  {
    if i >= MicroSlots(data) then [] else MicroAt(data, i) + MicroFrom(data, i + 1)
  }

  method MicroList(data: seq<byte>) returns (out: seq<Named<u64>>)
    ensures out == MicroFrom(data, 0)
  {
    hide MicroOffset, MicroName, MicroSlots, ReadU64, UpToNul;
    out := [];
    var capacity := MicroSlots(data);
    var i := 0;
    while i < capacity
      invariant 0 <= i <= capacity
      invariant out + MicroFrom(data, i) == MicroFrom(data, 0)
    {
      var value := Le64(data, MicroOffset(i));
      var nameBytes := MicroName(data, i);
      var end := FirstNul(nameBytes);
      ListStep(out, MicroAt(data, i), MicroFrom(data, i + 1));
      if end != 0 {
        out := out + [Named(nameBytes[..end], value)];
      }
      i := i + 1;
    }
  }

  method FirstNul(bytes: seq<byte>) returns (end: nat)
    ensures end <= |bytes| && bytes[..end] == UpToNul(bytes)
  {
    end := 0;
    while end < |bytes| && bytes[end] != 0
      invariant 0 <= end <= |bytes|
      invariant UpToNul(bytes) == bytes[..end] + UpToNul(bytes[end..])
    {
      assert bytes[end..][1..] == bytes[end + 1..];
      assert bytes[..end + 1] == bytes[..end] + [bytes[end]];
      Reassociate(bytes[..end], [bytes[end]], UpToNul(bytes[end + 1..]));
      end := end + 1;
    }
  }

  // ---- dispatch ------------------------------------------------------------

  function Listing(data: seq<byte>): seq<Named<u64>> {
    if Le64(data, 0) == ZBT_MICRO then MicroFrom(data, 0)
    else if Le64(data, 0) == ZBT_HEADER then FoldAll(FatEntries(data))
    else []
  }

  function ArrayListing(data: seq<byte>): seq<Named<seq<byte>>> {
    if Le64(data, 0) == ZBT_MICRO then LittleEndianValues(MicroFrom(data, 0))
    else if Le64(data, 0) == ZBT_HEADER then FatEntries(data)
    else []
  }

  function LittleEndianValues(entries: seq<Named<u64>>): seq<Named<seq<byte>>> {
    seq(|entries|, i requires 0 <= i < |entries| => Named(entries[i].name, LeBytes(entries[i].value, 8)))
  }

  method ZapList(data: seq<byte>) returns (out: seq<Named<u64>>)
    ensures out == Listing(data)
  {
    if Le64(data, 0) == ZBT_MICRO {
      out := MicroList(data);
    } else if Le64(data, 0) == ZBT_HEADER {
      out := FatList(data);
    } else {
      out := [];
    }
  }

  method ZapListArrays(data: seq<byte>) returns (out: seq<Named<seq<byte>>>)
    ensures out == ArrayListing(data)
  {
    if Le64(data, 0) == ZBT_MICRO {
      var entries := MicroList(data);
      out := LittleEndianValues(entries);
    } else if Le64(data, 0) == ZBT_HEADER {
      out := FatListArrays(data);
    } else {
      out := [];
    }
  }

  function Find(entries: seq<Named<u64>>, name: seq<byte>): Option<u64> {
    if entries == [] then None
    else if entries[0].name == name then Some(entries[0].value)
    else Find(entries[1..], name)
  }

  function ZapLookup(data: seq<byte>, name: seq<byte>): Option<u64> {
    Find(Listing(data), name)
  }

  /** A chain ends at the end mark, at an index past the chunks, and at a chunk of another
      type, whatever that holds. */
  lemma ChainEndsAtOthers(a: Area, nc: u16, want: nat)
    requires a.Valid()
    requires nc == 0xffff || nc >= a.nchunks || a.leaf[a.start + 24 * nc] != 251
    ensures ArrayBytes(a, nc, want) == []
  {
    if nc < a.nchunks { a.ChunkFits(nc); }
  }
}
