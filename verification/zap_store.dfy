/** Writing ZAP objects, and what the readers of module Zap list from them. The writer
    puts each name and each value into a chain of array chunks at chunk indices of the
    caller's choosing. */
module ZapStore {
  import opened Arithmetic
  import opened Bytes
  import opened Zap

  // ---- chunks --------------------------------------------------------------

  datatype Chunk =
    | ArrayChunk(payload: seq<byte>, next: u16)
    | EntryChunk(intSize: byte, nameChunk: u16, nameInts: u16, valueChunk: u16, valueInts: u16,
                 leNext: seq<byte>, tail: seq<byte>)
    | OtherChunk(bytes: seq<byte>)
  {
    predicate Ok() {
      match this
      case ArrayChunk(payload, _) => |payload| == ARRAY_BYTES
      case EntryChunk(_, _, _, _, _, leNext, tail) => |leNext| == 2 && |tail| == 12
      case OtherChunk(bytes) => |bytes| == CHUNK_SIZE && bytes[0] != CHUNK_ENTRY
    }
  }

  function PrintChunk(c: Chunk): (bytes: seq<byte>)
    requires c.Ok()
    ensures |bytes| == CHUNK_SIZE
  {
    match c
    case ArrayChunk(payload, next) => [CHUNK_ARRAY] + payload + LeBytes(next, 2)
    case EntryChunk(intSize, nameChunk, nameInts, valueChunk, valueInts, leNext, tail) =>
      [CHUNK_ENTRY, intSize] + leNext + LeBytes(nameChunk, 2) + LeBytes(nameInts, 2)
      + LeBytes(valueChunk, 2) + LeBytes(valueInts, 2) + tail
    case OtherChunk(bytes) => bytes
  }

  predicate AllOk(chunks: seq<Chunk>) { forall i :: 0 <= i < |chunks| ==> chunks[i].Ok() }

  function PrintChunks(chunks: seq<Chunk>): (bytes: seq<byte>)
    requires AllOk(chunks)
    ensures |bytes| == CHUNK_SIZE * |chunks|
  {
    if chunks == [] then [] else PrintChunk(chunks[0]) + PrintChunks(chunks[1..])
  }

  /** The chunk area of a leaf holds these chunks. */
  ghost predicate HoldsChunks(a: Area, chunks: seq<Chunk>) {
    a.Valid() && AllOk(chunks) && |chunks| == a.nchunks &&
    forall i :: 0 <= i < |chunks| ==> At(a.leaf, a.Offset(i), PrintChunk(chunks[i]))
  }

  lemma ReadsFirst(data: seq<byte>, off: nat, bytes: seq<byte>)
    requires bytes != [] && At(data, off, bytes)
    ensures U8At(data, off) == bytes[0]
  {
    assert data[off..off + |bytes|][0] == data[off];
  }

  lemma ReadsArray(a: Area, i: nat, c: Chunk)
    requires a.Valid() && i < a.nchunks && i != CHAIN_END && c.ArrayChunk? && c.Ok()
    requires At(a.leaf, a.Offset(i), PrintChunk(c))
    ensures a.IsArray(i) && a.Payload(i) == c.payload && a.Next(i) == c.next
  {
    var off := a.Offset(i);
    ReadsFirst(a.leaf, off, PrintChunk(c));
    AtSplit(a.leaf, off, [CHUNK_ARRAY] + c.payload, LeBytes(c.next, 2));
    AtSplit(a.leaf, off, [CHUNK_ARRAY], c.payload);
    ReadsLe16(a.leaf, off + 22, c.next);
  }

  lemma ReadsEntry(data: seq<byte>, off: nat, c: Chunk)
    requires c.EntryChunk? && c.Ok() && At(data, off, PrintChunk(c))
    ensures U8At(data, off) == CHUNK_ENTRY && U8At(data, off + 1) == c.intSize
    ensures Le16(data, off + 4) == c.nameChunk && Le16(data, off + 6) == c.nameInts
    ensures Le16(data, off + 8) == c.valueChunk && Le16(data, off + 10) == c.valueInts
  {
    hide LeBytes, ReadU16, U8At;
    var p1 := [CHUNK_ENTRY, c.intSize] + c.leNext;
    var p2 := p1 + LeBytes(c.nameChunk, 2);
    var p3 := p2 + LeBytes(c.nameInts, 2);
    var p4 := p3 + LeBytes(c.valueChunk, 2);
    var p5 := p4 + LeBytes(c.valueInts, 2);
    AtSplit(data, off, p5, c.tail);
    AtSplit(data, off, p4, LeBytes(c.valueInts, 2));
    AtSplit(data, off, p3, LeBytes(c.valueChunk, 2));
    AtSplit(data, off, p2, LeBytes(c.nameInts, 2));
    AtSplit(data, off, p1, LeBytes(c.nameChunk, 2));
    AtSplit(data, off, [CHUNK_ENTRY, c.intSize], c.leNext);
    AtSplit(data, off, [CHUNK_ENTRY], [c.intSize]);
    ReadsFirst(data, off, [CHUNK_ENTRY]);
    ReadsFirst(data, off + 1, [c.intSize]);
    ReadsLe16(data, off + 4, c.nameChunk);
    ReadsLe16(data, off + 6, c.nameInts);
    ReadsLe16(data, off + 8, c.valueChunk);
    ReadsLe16(data, off + 10, c.valueInts);
  }

  // ---- chains --------------------------------------------------------------

  function Padded(bytes: seq<byte>): (payload: seq<byte>)
    ensures |payload| == ARRAY_BYTES
  {
    Take(bytes, ARRAY_BYTES) + Repeat(0, ARRAY_BYTES - |Take(bytes, ARRAY_BYTES)|)
  }

  function Drop(bytes: seq<byte>, n: nat): (rest: seq<byte>)
    ensures |rest| == |bytes| - Min(n, |bytes|) && Take(bytes, n) + rest == bytes
  {
    bytes[Min(n, |bytes|)..]
  }

  predicate InRange(chain: seq<nat>, n: nat) { forall k :: 0 <= k < |chain| ==> chain[k] < n && chain[k] < CHAIN_END }

  function Start(chain: seq<nat>, n: nat): u16
    requires InRange(chain, n)
  {
    if chain == [] then CHAIN_END else chain[0]
  }

  function Link(bytes: seq<byte>, chain: seq<nat>, n: nat): (c: Chunk)
    requires InRange(chain, n) && chain != []
    ensures c.Ok()
  {
    ArrayChunk(Padded(bytes), Start(chain[1..], n))
  }

  /** Store `bytes` along the chunk indices of `chain`. */
  function WriteChain(chunks: seq<Chunk>, bytes: seq<byte>, chain: seq<nat>): (r: seq<Chunk>)
    requires InRange(chain, |chunks|)
    ensures |r| == |chunks|
    decreases |chain|
  {
    if chain == [] then chunks
    else WriteChain(chunks[chain[0] := Link(bytes, chain, |chunks|)], Drop(bytes, ARRAY_BYTES), chain[1..])
  }

  predicate HoldsChain(chunks: seq<Chunk>, bytes: seq<byte>, chain: seq<nat>)
    requires InRange(chain, |chunks|)
    decreases |chain|
  {
    if chain == [] then bytes == []
    else chunks[chain[0]] == Link(bytes, chain, |chunks|)
         && HoldsChain(chunks, Drop(bytes, ARRAY_BYTES), chain[1..])
  }

  lemma {:induction false} HoldsChainFrame(c: seq<Chunk>, d: seq<Chunk>, bytes: seq<byte>, chain: seq<nat>)
    requires |c| == |d| && InRange(chain, |c|) && HoldsChain(c, bytes, chain)
    requires forall k :: 0 <= k < |chain| ==> c[chain[k]] == d[chain[k]]
    ensures HoldsChain(d, bytes, chain)
    decreases |chain|
  {
    if chain == [] {
    } else {
      HoldsChainFrame(c, d, Drop(bytes, ARRAY_BYTES), chain[1..]);
    }
  }

  lemma {:induction false} WriteChainFrame(chunks: seq<Chunk>, bytes: seq<byte>, chain: seq<nat>, i: nat)
    requires InRange(chain, |chunks|) && i < |chunks| && i !in chain
    ensures WriteChain(chunks, bytes, chain)[i] == chunks[i]
    decreases |chain|
  {
    if chain == [] {
    } else {
      WriteChainFrame(chunks[chain[0] := Link(bytes, chain, |chunks|)], Drop(bytes, ARRAY_BYTES), chain[1..], i);
    }
  }

  lemma {:induction false} WriteChainHolds(chunks: seq<Chunk>, bytes: seq<byte>, chain: seq<nat>)
    requires InRange(chain, |chunks|) && Distinct(chain) && |bytes| <= ARRAY_BYTES * |chain|
    ensures HoldsChain(WriteChain(chunks, bytes, chain), bytes, chain)
    decreases |chain|
  {
    if chain == [] {
    } else {
      var next := chunks[chain[0] := Link(bytes, chain, |chunks|)];
      var rest := Drop(bytes, ARRAY_BYTES);
      WriteChainHolds(next, rest, chain[1..]);
      WriteChainFrame(next, rest, chain[1..], chain[0]);
    }
  }

  lemma {:induction false} WriteChainOk(chunks: seq<Chunk>, bytes: seq<byte>, chain: seq<nat>)
    requires InRange(chain, |chunks|) && AllOk(chunks)
    ensures AllOk(WriteChain(chunks, bytes, chain))
    decreases |chain|
  {
    if chain == [] {
    } else {
      WriteChainOk(chunks[chain[0] := Link(bytes, chain, |chunks|)], Drop(bytes, ARRAY_BYTES), chain[1..]);
    }
  }

  lemma {:induction false} HeldChainIsLinked(a: Area, chunks: seq<Chunk>, bytes: seq<byte>, chain: seq<nat>)
    requires HoldsChunks(a, chunks) && InRange(chain, |chunks|) && HoldsChain(chunks, bytes, chain)
    ensures Linked(a, chain)
    ensures |bytes| <= |Payloads(a, chain)| && Payloads(a, chain)[..|bytes|] == bytes
    ensures chain != [] ==> a.Next(chain[|chain| - 1]) == CHAIN_END
    decreases |chain|
  {
    hide Area.Payload, Area.Next, Area.IsArray, PrintChunk, At, Link;
    if chain == [] {
    } else {
      var tail := chain[1..];
      HeldLink(a, chunks, bytes, chain);
      HeldChainIsLinked(a, chunks, Drop(bytes, ARRAY_BYTES), tail);
      assert forall i :: 0 <= i < |tail| ==> tail[i] == chain[i + 1];
      PrefixSplit(bytes, Payloads(a, tail));
    }
  }

  lemma HeldLink(a: Area, chunks: seq<Chunk>, bytes: seq<byte>, chain: seq<nat>)
    requires HoldsChunks(a, chunks) && InRange(chain, |chunks|) && chain != []
    requires HoldsChain(chunks, bytes, chain)
    ensures a.IsArray(chain[0]) && a.Payload(chain[0]) == Padded(bytes)
    ensures a.Next(chain[0]) == Start(chain[1..], |chunks|)
  {
    ReadsArray(a, chain[0], chunks[chain[0]]);
  }

  lemma PrefixSplit(bytes: seq<byte>, more: seq<byte>)
    requires |Drop(bytes, ARRAY_BYTES)| <= |more|
    requires more[..|Drop(bytes, ARRAY_BYTES)|] == Drop(bytes, ARRAY_BYTES)
    ensures (Padded(bytes) + more)[..|bytes|] == bytes
  {
    if |bytes| <= ARRAY_BYTES {
      assert (Padded(bytes) + more)[..|bytes|] == Padded(bytes)[..|bytes|];
    } else {
      var rest := Drop(bytes, ARRAY_BYTES);
      assert Padded(bytes) == Take(bytes, ARRAY_BYTES);
      assert (Padded(bytes) + more)[..|bytes|] == Padded(bytes) + more[..|rest|];
    }
  }

  /** Bytes stored along a chain without repetition are collected back. */
  lemma StoredBytesReadBack(a: Area, chunks: seq<Chunk>, bytes: seq<byte>, chain: seq<nat>)
    requires HoldsChunks(a, chunks) && InRange(chain, |chunks|) && HoldsChain(chunks, bytes, chain)
    requires Distinct(chain)
    ensures ArrayBytes(a, Start(chain, |chunks|), |bytes|) == bytes
  {
    if chain != [] {
      HeldChainIsLinked(a, chunks, bytes, chain);
      AcyclicChainIsWhole(a, chain, |bytes|);
    }
  }

  // ---- entries -------------------------------------------------------------

  /** An entry to store: its chunk, its name, with a trailing NUL or, if it does not end in
      one, without, its value as `numInts` integers of `intSize` bytes, and the chunks its
      bytes go to. */
  datatype Stored = Stored(at: nat, name: seq<byte>, nul: bool, intSize: byte, numInts: u16, value: seq<byte>,
                           nameChain: seq<nat>, valueChain: seq<nat>, leNext: seq<byte>, tail: seq<byte>)
  {
    function NameBytes(): seq<byte> { if nul then name + [0] else name }

    function Cells(): seq<nat> { nameChain + valueChain + [at] }

    predicate Fits(n: nat) {
      (nul || name == [] || name[|name| - 1] != 0) && |NameBytes()| < TWO16 &&
      |value| == Wanted(intSize, numInts) &&
      |NameBytes()| <= ARRAY_BYTES * |nameChain| && |value| <= ARRAY_BYTES * |valueChain| &&
      InRange(nameChain, n) && InRange(valueChain, n) && at < n && |leNext| == 2 && |tail| == 12
    }

    function Entry(n: nat): (c: Chunk)
      requires Fits(n)
      ensures c.EntryChunk? && c.Ok()
    {
      EntryChunk(intSize, Start(nameChain, n), |NameBytes()|, Start(valueChain, n), numInts, leNext, tail)
    }

    /** An entry without a name is not listed. */
    function Listed(): seq<Named<seq<byte>>> { if name == [] then [] else [Named(name, value)] }
  }

  function WriteEntry(chunks: seq<Chunk>, e: Stored): (r: seq<Chunk>)
    requires e.Fits(|chunks|)
    ensures |r| == |chunks|
  {
    WriteChain(WriteChain(chunks, e.NameBytes(), e.nameChain), e.value, e.valueChain)[e.at := e.Entry(|chunks|)]
  }

  predicate HoldsEntry(chunks: seq<Chunk>, e: Stored) {
    e.Fits(|chunks|) && chunks[e.at] == e.Entry(|chunks|) &&
    HoldsChain(chunks, e.NameBytes(), e.nameChain) && HoldsChain(chunks, e.value, e.valueChain)
  }

  lemma CellsDistinct(e: Stored)
    requires Distinct(e.Cells())
    ensures Distinct(e.nameChain) && Distinct(e.valueChain)
    ensures e.at !in e.nameChain && e.at !in e.valueChain
    ensures forall k :: 0 <= k < |e.nameChain| ==> e.nameChain[k] !in e.valueChain
  {
    var c, n := e.Cells(), |e.nameChain|;
    assert forall k :: 0 <= k < n ==> c[k] == e.nameChain[k];
    assert forall k :: 0 <= k < |e.valueChain| ==> c[n + k] == e.valueChain[k];
    assert c[n + |e.valueChain|] == e.at;
  }

  lemma WriteEntryHolds(chunks: seq<Chunk>, e: Stored)
    requires e.Fits(|chunks|) && Distinct(e.Cells())
    ensures HoldsEntry(WriteEntry(chunks, e), e)
  {
    hide WriteChain, HoldsChain, Distinct;
    CellsDistinct(e);
    var c1 := WriteChain(chunks, e.NameBytes(), e.nameChain);
    var c2 := WriteChain(c1, e.value, e.valueChain);
    WriteChainHolds(chunks, e.NameBytes(), e.nameChain);
    WriteChainHolds(c1, e.value, e.valueChain);
    forall k | 0 <= k < |e.nameChain| ensures c1[e.nameChain[k]] == c2[e.nameChain[k]] {
      WriteChainFrame(c1, e.value, e.valueChain, e.nameChain[k]);
    }
    HoldsChainFrame(c1, c2, e.NameBytes(), e.nameChain);
    HoldsChainFrame(c2, WriteEntry(chunks, e), e.NameBytes(), e.nameChain);
    HoldsChainFrame(c2, WriteEntry(chunks, e), e.value, e.valueChain);
  }

  lemma WriteEntryFrame(chunks: seq<Chunk>, e: Stored, i: nat)
    requires e.Fits(|chunks|) && i < |chunks| && i !in e.Cells()
    ensures WriteEntry(chunks, e)[i] == chunks[i]
  {
    WriteChainFrame(chunks, e.NameBytes(), e.nameChain, i);
    WriteChainFrame(WriteChain(chunks, e.NameBytes(), e.nameChain), e.value, e.valueChain, i);
    assert e.Cells()[|e.Cells()| - 1] == e.at;
  }

  lemma HoldsEntryFrame(c: seq<Chunk>, d: seq<Chunk>, e: Stored)
    requires |c| == |d| && HoldsEntry(c, e)
    requires forall i :: 0 <= i < |c| && i in e.Cells() ==> c[i] == d[i]
    ensures HoldsEntry(d, e)
  {
    HoldsChainFrame(c, d, e.NameBytes(), e.nameChain);
    HoldsChainFrame(c, d, e.value, e.valueChain);
    assert e.Cells()[|e.Cells()| - 1] == e.at;
  }

  // ---- plans ---------------------------------------------------------------

  /** The entries a leaf is to hold: each fits, and no two use one chunk. */
  predicate Plan(plan: seq<Stored>, n: nat) {
    (forall j :: 0 <= j < |plan| ==> plan[j].Fits(n) && Distinct(plan[j].Cells())) &&
    forall i, j :: 0 <= i < j < |plan| ==> Apart(plan[i], plan[j])
  }

  /** No chunk serves both, and the first one's entry chunk comes earlier. */
  predicate Apart(d: Stored, e: Stored) {
    d.at < e.at && forall k :: 0 <= k < |d.Cells()| ==> d.Cells()[k] !in e.Cells()
  }

  function WritePlan(chunks: seq<Chunk>, plan: seq<Stored>): (r: seq<Chunk>)
    requires Plan(plan, |chunks|)
    ensures |r| == |chunks|
    decreases |plan|
  {
    if plan == [] then chunks else WritePlan(WriteEntry(chunks, plan[0]), plan[1..])
  }

  lemma {:induction false} WritePlanFrame(chunks: seq<Chunk>, plan: seq<Stored>, i: nat)
    requires Plan(plan, |chunks|) && i < |chunks|
    requires forall j :: 0 <= j < |plan| ==> i !in plan[j].Cells()
    ensures WritePlan(chunks, plan)[i] == chunks[i]
    decreases |plan|
  {
    hide WriteEntry, Stored.Cells, Stored.Fits;
    if plan == [] {
    } else {
      WriteEntryFrame(chunks, plan[0], i);
      WritePlanFrame(WriteEntry(chunks, plan[0]), plan[1..], i);
    }
  }

  lemma {:induction false} WritePlanHolds(chunks: seq<Chunk>, plan: seq<Stored>, j: nat)
    requires Plan(plan, |chunks|) && j < |plan|
    ensures HoldsEntry(WritePlan(chunks, plan), plan[j])
    decreases |plan|
  {
    hide WriteEntry, Stored.Cells, Stored.Fits, HoldsEntry;
    var next, rest := WriteEntry(chunks, plan[0]), plan[1..];
    if j > 0 {
      WritePlanHolds(next, rest, j - 1);
    } else {
      WriteEntryHolds(chunks, plan[0]);
      forall i | 0 <= i < |chunks| && i in plan[0].Cells()
        ensures next[i] == WritePlan(next, rest)[i]
      {
        CellsAvoid(plan, i);
        WritePlanFrame(next, rest, i);
      }
      HoldsEntryFrame(next, WritePlan(next, rest), plan[0]);
    }
  }

  lemma CellsAvoid(plan: seq<Stored>, i: nat)
    requires plan != [] && i in plan[0].Cells()
    requires forall k :: 1 <= k < |plan| ==> Apart(plan[0], plan[k])
    ensures forall j :: 0 <= j < |plan[1..]| ==> i !in plan[1..][j].Cells()
  {
    var k :| 0 <= k < |plan[0].Cells()| && plan[0].Cells()[k] == i;
    forall j | 0 <= j < |plan[1..]| ensures i !in plan[1..][j].Cells() {
      assert Apart(plan[0], plan[j + 1]);
    }
  }

  predicate IsAt(plan: seq<Stored>, i: nat) { exists j :: 0 <= j < |plan| && plan[j].at == i }

  lemma ChainHasNoEntry(chunks: seq<Chunk>, bytes: seq<byte>, chain: seq<nat>, i: nat)
    requires InRange(chain, |chunks|) && i < |chunks| && WriteChain(chunks, bytes, chain)[i].EntryChunk?
    ensures chunks[i].EntryChunk?
    decreases |chain|
  {
    if chain != [] {
      ChainHasNoEntry(chunks[chain[0] := Link(bytes, chain, |chunks|)], Drop(bytes, ARRAY_BYTES), chain[1..], i);
    }
  }

  /** Writing creates entry chunks at the plan's places only. */
  lemma {:induction false} WritePlanEntries(chunks: seq<Chunk>, plan: seq<Stored>, i: nat)
    requires Plan(plan, |chunks|) && i < |chunks| && AllOk(chunks)
    requires WritePlan(chunks, plan)[i].EntryChunk?
    ensures chunks[i].EntryChunk? || IsAt(plan, i)
    decreases |plan|
  {
    hide WriteChain, Stored.Cells, Stored.Fits;
    if plan == [] {
    } else {
      var e := plan[0];
      WriteEntryOk(chunks, e);
      WritePlanEntries(WriteEntry(chunks, e), plan[1..], i);
      if IsAt(plan[1..], i) {
        var j :| 0 <= j < |plan[1..]| && plan[1..][j].at == i;
        assert plan[j + 1].at == i;
      } else if i != e.at {
        EntryFromBefore(chunks, e, i);
      } else {
        assert plan[0].at == i;
      }
    }
  }

  lemma EntryFromBefore(chunks: seq<Chunk>, e: Stored, i: nat)
    requires e.Fits(|chunks|) && i < |chunks| && i != e.at && WriteEntry(chunks, e)[i].EntryChunk?
    ensures chunks[i].EntryChunk?
  {
    ChainHasNoEntry(WriteChain(chunks, e.NameBytes(), e.nameChain), e.value, e.valueChain, i);
    ChainHasNoEntry(chunks, e.NameBytes(), e.nameChain, i);
  }

  lemma WriteEntryOk(chunks: seq<Chunk>, e: Stored)
    requires e.Fits(|chunks|) && AllOk(chunks)
    ensures AllOk(WriteEntry(chunks, e))
  {
    WriteChainOk(chunks, e.NameBytes(), e.nameChain);
    WriteChainOk(WriteChain(chunks, e.NameBytes(), e.nameChain), e.value, e.valueChain);
  }

  lemma {:induction false} WritePlanOk(chunks: seq<Chunk>, plan: seq<Stored>)
    requires Plan(plan, |chunks|) && AllOk(chunks)
    ensures AllOk(WritePlan(chunks, plan))
    decreases |plan|
  {
    hide WriteEntry, Stored.Cells, Stored.Fits;
    if plan == [] {
    } else {
      WriteEntryOk(chunks, plan[0]);
      WritePlanOk(WriteEntry(chunks, plan[0]), plan[1..]);
    }
  }

  // ---- listing a leaf ------------------------------------------------------

  function ListedPlan(plan: seq<Stored>): (entries: seq<Named<seq<byte>>>)
  {
    if plan == [] then [] else plan[0].Listed() + ListedPlan(plan[1..])
  }

  /** `plan` is exactly what the chunks hold from chunk `ci` on. */
  ghost predicate Covers(chunks: seq<Chunk>, plan: seq<Stored>, ci: nat) {
    Plan(plan, |chunks|) &&
    (forall j :: 0 <= j < |plan| ==> plan[j].at >= ci && HoldsEntry(chunks, plan[j])) &&
    (forall i :: ci <= i < |chunks| && chunks[i].EntryChunk? ==> IsAt(plan, i))
  }

  lemma EntryListed(a: Area, chunks: seq<Chunk>, e: Stored)
    requires HoldsChunks(a, chunks) && HoldsEntry(chunks, e) && Distinct(e.Cells())
    ensures ListedAt(a, e.at) == e.Listed()
  {
    hide HoldsChain, PrintChunk, At, ArrayBytes, Stored.Cells;
    CellsDistinct(e);
    var c := e.Entry(|chunks|);
    ReadsEntry(a.leaf, a.Offset(e.at), c);
    StoredBytesReadBack(a, chunks, e.NameBytes(), e.nameChain);
    StoredBytesReadBack(a, chunks, e.value, e.valueChain);
    assert PopNul(e.NameBytes()) == e.name;
  }

  lemma OthersNotListed(a: Area, chunks: seq<Chunk>, i: nat)
    requires HoldsChunks(a, chunks) && i < |chunks| && !chunks[i].EntryChunk?
    ensures ListedAt(a, i) == []
  {
    ReadsFirst(a.leaf, a.Offset(i), PrintChunk(chunks[i]));
  }

  lemma {:induction false} CoveredIsListed(a: Area, chunks: seq<Chunk>, plan: seq<Stored>, ci: nat)
    requires HoldsChunks(a, chunks) && ci <= |chunks| && Covers(chunks, plan, ci)
    ensures ListedFrom(a, ci) == ListedPlan(plan)
    decreases |chunks| - ci
  {
    hide HoldsEntry, ListedAt, Stored.Cells, Stored.Fits, Stored.Listed, At, PrintChunk, Distinct;
    if ci == |chunks| {
      PlanInside(chunks, plan);
    } else if plan != [] && plan[0].at == ci {
      EntryListed(a, chunks, plan[0]);
      CoverDropsFirst(chunks, plan);
      CoveredIsListed(a, chunks, plan[1..], ci + 1);
      assert ListedFrom(a, ci) == plan[0].Listed() + ListedPlan(plan[1..]);
    } else {
      CoverSkips(chunks, plan, ci);
      OthersNotListed(a, chunks, ci);
      CoveredIsListed(a, chunks, plan, ci + 1);
    }
  }

  lemma PlanInside(chunks: seq<Chunk>, plan: seq<Stored>)
    requires Covers(chunks, plan, |chunks|)
    ensures plan == []
  {
    if plan != [] {
      PlanBelow(plan, |chunks|, 0);
    }
  }

  lemma PlanBelow(plan: seq<Stored>, n: nat, j: nat)
    requires Plan(plan, n) && j < |plan|
    ensures plan[j].at < n
  {
  }

  lemma CoverDropsFirst(chunks: seq<Chunk>, plan: seq<Stored>)
    requires plan != [] && Covers(chunks, plan, plan[0].at)
    ensures Covers(chunks, plan[1..], plan[0].at + 1)
  {
    hide HoldsEntry, Stored.Cells, Stored.Fits;
    var ci, rest := plan[0].at, plan[1..];
    forall j | 0 <= j < |rest| ensures rest[j].at >= ci + 1 {
      assert Apart(plan[0], plan[j + 1]);
    }
    forall i | ci + 1 <= i < |chunks| && chunks[i].EntryChunk? ensures IsAt(rest, i) {
      assert IsAt(plan, i);
      var j :| 0 <= j < |plan| && plan[j].at == i;
      assert rest[j - 1].at == i;
    }
  }

  lemma CoverSkips(chunks: seq<Chunk>, plan: seq<Stored>, ci: nat)
    requires ci < |chunks| && Covers(chunks, plan, ci) && (plan == [] || plan[0].at != ci)
    ensures !chunks[ci].EntryChunk? && Covers(chunks, plan, ci + 1)
  {
    hide HoldsEntry, Stored.Cells, Stored.Fits;
    forall j | 0 <= j < |plan| ensures plan[j].at > ci {
      assert j == 0 || Apart(plan[0], plan[j]);
    }
  }

  lemma WrittenCovers(blank: seq<Chunk>, plan: seq<Stored>)
    requires AllOk(blank) && Plan(plan, |blank|)
    requires forall i :: 0 <= i < |blank| ==> !blank[i].EntryChunk?
    ensures AllOk(WritePlan(blank, plan)) && Covers(WritePlan(blank, plan), plan, 0)
  {
    hide HoldsEntry, Stored.Cells, Stored.Fits, WritePlan;
    var chunks := WritePlan(blank, plan);
    WritePlanOk(blank, plan);
    forall j | 0 <= j < |plan| ensures HoldsEntry(chunks, plan[j]) {
      WritePlanHolds(blank, plan, j);
    }
    forall i | 0 <= i < |chunks| && chunks[i].EntryChunk? ensures IsAt(plan, i) {
      WritePlanEntries(blank, plan, i);
    }
  }

  // ---- printing objects ----------------------------------------------------

  /** A block of a fat object after the header: a leaf, or something else entirely
      (a pointer-table block). */
  datatype Region =
    | Leaf(prefix: seq<byte>, hdr: seq<byte>, hash: seq<byte>, blank: seq<Chunk>, plan: seq<Stored>,
           pad: seq<byte>)
    | Foreign(bytes: seq<byte>)
  {
    predicate Ok(shift: nat)
      requires shift >= 5
    {
      match this
      case Leaf(prefix, hdr, hash, blank, plan, pad) =>
        |prefix| == 16 && |hdr| == 20 && |hash| == 2 * Power(2, shift - 5) && |pad| < CHUNK_SIZE &&
        LEAF_HDR_SIZE + |hash| + CHUNK_SIZE * |blank| + |pad| == Power(2, shift) &&
        AllOk(blank) && (forall i :: 0 <= i < |blank| ==> !blank[i].EntryChunk?) && Plan(plan, |blank|)
      case Foreign(bytes) => |bytes| == Power(2, shift) && !LeafSignature(bytes, 0)
    }

    function Entries(): seq<Named<seq<byte>>> { if Leaf? then ListedPlan(plan) else [] }
  }

  function LeafHeader(prefix: seq<byte>, hdr: seq<byte>): seq<byte> {
    LeBytes(ZBT_LEAF, 8) + prefix + LeBytes(ZAP_LEAF_MAGIC, 4) + hdr
  }

  function PrintRegion(r: Region, shift: nat): (bytes: seq<byte>)
    requires shift >= 5 && r.Ok(shift)
    ensures |bytes| == Power(2, shift)
  {
    match r
    case Leaf(prefix, hdr, hash, blank, plan, pad) =>
      WritePlanOk(blank, plan);
      LeafHeader(prefix, hdr) + hash + PrintChunks(WritePlan(blank, plan)) + pad
    case Foreign(bytes) => bytes
  }

  lemma SignaturePrinted(prefix: seq<byte>, hdr: seq<byte>, rest: seq<byte>)
    requires |prefix| == 16
    ensures LeafSignature(LeafHeader(prefix, hdr) + rest, 0)
  {
    hide LeBytes, At, ReadU32, ReadU64;
    var data := LeafHeader(prefix, hdr) + rest;
    var tag, magic := LeBytes(ZBT_LEAF, 8), LeBytes(ZAP_LEAF_MAGIC, 4);
    StartsWith(LeafHeader(prefix, hdr), rest);
    AtSplit(data, 0, tag + prefix + magic, hdr);
    AtSplit(data, 0, tag + prefix, magic);
    AtSplit(data, 0, tag, prefix);
    ReadsLe64(data, 0, ZBT_LEAF);
    ReadsLe32(data, 24, ZAP_LEAF_MAGIC);
  }

  lemma {:induction false} ChunksLieAt(data: seq<byte>, off: nat, chunks: seq<Chunk>, i: nat)
    requires AllOk(chunks) && At(data, off, PrintChunks(chunks)) && i < |chunks|
    ensures At(data, off + i * CHUNK_SIZE, PrintChunk(chunks[i]))
    decreases i
  {
    hide At, PrintChunk;
    AtSplit(data, off, PrintChunk(chunks[0]), PrintChunks(chunks[1..]));
    if i == 0 {
    } else {
      ChunksLieAt(data, off + CHUNK_SIZE, chunks[1..], i - 1);
    }
  }

  lemma HowManyChunks(total: nat, start: nat, n: nat, pad: nat)
    requires pad < CHUNK_SIZE && start + CHUNK_SIZE * n + pad == total
    ensures (total - start) / CHUNK_SIZE == n
  {
  }

  lemma PrintedAreaHolds(leaf: seq<byte>, head: seq<byte>, chunks: seq<Chunk>, pad: seq<byte>, shift: nat)
    requires AllOk(chunks) && |pad| < CHUNK_SIZE && leaf == head + PrintChunks(chunks) + pad
    requires shift >= 5 && |head| == LEAF_HDR_SIZE + 2 * Power(2, shift - 5) && |leaf| > |head|
    ensures LeafArea(leaf, Power(2, shift)).Some? && HoldsChunks(LeafArea(leaf, Power(2, shift)).value, chunks)
  {
    hide At, PrintChunks;
    TrailingZerosPow2(shift);
    HowManyChunks(|leaf|, |head|, |chunks|, |pad|);
    AtPrefix(head, PrintChunks(chunks), pad);
    var a := LeafArea(leaf, Power(2, shift)).value;
    forall i | 0 <= i < |chunks| ensures At(a.leaf, a.Offset(i), PrintChunk(chunks[i])) {
      ChunksLieAt(leaf, |head|, chunks, i);
    }
  }

  /** A printed leaf lists its plan, in chunk order. */
  lemma PrintedLeafLists(r: Region, shift: nat)
    requires shift >= 5 && r.Ok(shift) && r.Leaf?
    ensures LeafSignature(PrintRegion(r, shift), 0)
    ensures LeafEntries(PrintRegion(r, shift), Power(2, shift)) == ListedPlan(r.plan)
  {
    hide LeafSignature, PrintChunks, WritePlan, Plan, ListedFrom, AllOk, Covers, At, HoldsChunks, LeafHeader;
    WrittenCovers(r.blank, r.plan);
    var chunks := WritePlan(r.blank, r.plan);
    var leaf, body := PrintRegion(r, shift), PrintChunks(chunks);
    var header := LeafHeader(r.prefix, r.hdr);
    Reassociate(header, r.hash, body);
    Reassociate(header, r.hash + body, r.pad);
    SignaturePrinted(r.prefix, r.hdr, r.hash + body + r.pad);
    if |leaf| > |header + r.hash| {
      PrintedAreaHolds(leaf, header + r.hash, chunks, r.pad, shift);
      CoveredIsListed(LeafArea(leaf, Power(2, shift)).value, chunks, r.plan, 0);
    } else {
      TrailingZerosPow2(shift);
      EmptyPlan(chunks, r.plan);
    }
  }

  lemma EmptyPlan(chunks: seq<Chunk>, plan: seq<Stored>)
    requires chunks == [] && Covers(chunks, plan, 0)
    ensures ListedPlan(plan) == []
  {
    PlanInside(chunks, plan);
  }

  predicate AllRegions(regions: seq<Region>, shift: nat)
    requires shift >= 5
  {
    forall i :: 0 <= i < |regions| ==> regions[i].Ok(shift)
  }

  function PrintRegions(regions: seq<Region>, shift: nat): (bytes: seq<byte>)
    requires shift >= 5 && AllRegions(regions, shift)
  {
    if regions == [] then [] else PrintRegion(regions[0], shift) + PrintRegions(regions[1..], shift)
  }

  function ListedRegions(regions: seq<Region>): seq<Named<seq<byte>>> {
    if regions == [] then [] else regions[0].Entries() + ListedRegions(regions[1..])
  }

  lemma {:induction false} RegionsListed(before: seq<byte>, regions: seq<Region>, shift: nat)
    requires shift >= 5 && AllRegions(regions, shift) && Power(2, shift) >= LEAF_HDR_SIZE
    ensures FatFrom(before + PrintRegions(regions, shift), |before|, Power(2, shift)) == ListedRegions(regions)
    decreases |regions|
  {
    hide LeafSignature, PrintRegion, LeafEntries, ListedPlan, Region.Ok;
    if regions == [] {
    } else {
      var bs, first := Power(2, shift), PrintRegion(regions[0], shift);
      var rest := PrintRegions(regions[1..], shift);
      var data := before + (first + rest);
      RegionEntries(regions[0], shift);
      Middle(before, first, rest);
      Reassociate(before, first, rest);
      RegionsListed(before + first, regions[1..], shift);
    }
  }

  lemma Middle<T>(a: seq<T>, b: seq<T>, c: seq<T>)
    ensures (a + (b + c))[|a|..|a| + |b|] == b
  {
  }

  lemma RegionEntries(r: Region, shift: nat)
    requires shift >= 5 && r.Ok(shift)
    ensures r.Entries() == (if LeafSignature(PrintRegion(r, shift), 0)
                            then LeafEntries(PrintRegion(r, shift), Power(2, shift)) else [])
  {
    hide LeafSignature, LeafEntries, LeafHeader, WritePlan;
    if r.Leaf? { PrintedLeafLists(r, shift); }
  }

  lemma SignatureMoves(a: seq<byte>, b: seq<byte>, c: seq<byte>)
    requires |b| >= 28
    ensures LeafSignature(a + b + c, |a|) == LeafSignature(b, 0)
  {
    ReadShift(Little, a, b, c, 0, 8);
    ReadShift(Little, a, b, c, 24, 4);
  }

  lemma {:induction false} ProbeFinds(data: seq<byte>, s: nat, shift: nat)
    requires s <= shift <= 17 && Power(2, shift) < |data| && LeafSignature(data, Power(2, shift))
    requires forall i :: s <= i < shift ==> !LeafSignature(data, Power(2, i))
    ensures ProbeFrom(data, s) == Power(2, shift)
    decreases shift - s
  {
    Pow2AtMost(s, shift);
    if s < shift { ProbeFinds(data, s + 1, shift); }
  }

  /** A fat object: its header block, then its leaves and other blocks. */
  datatype Object = Object(shift: nat, header: seq<byte>, regions: seq<Region>) {
    ghost predicate Ok() {
      9 <= shift <= 17 && |header| == Power(2, shift) && Le64(header, 0) == ZBT_HEADER &&
      regions != [] && regions[0].Leaf? && AllRegions(regions, shift) &&
      forall s :: 9 <= s < shift ==> !LeafSignature(Print(), Power(2, s))
    }

    function Print(): seq<byte>
      requires shift >= 5 && AllRegions(regions, shift)
    {
      header + PrintRegions(regions, shift)
    }
  }

  lemma ObjectSize(o: Object)
    requires o.Ok()
    ensures ProbeFrom(o.Print(), 9) == Power(2, o.shift) >= 512
    ensures Le64(o.Print(), 0) == ZBT_HEADER
  {
    hide LeafSignature, PrintRegion, ProbeFrom;
    Pow2AtMost(9, o.shift);
    assert Power(2, 4) == 16 && Power(2, 9) == 32 * Power(2, 4);
    var first, rest := PrintRegion(o.regions[0], o.shift), PrintRegions(o.regions[1..], o.shift);
    PrintedLeafLists(o.regions[0], o.shift);
    Reassociate(o.header, first, rest);
    SignatureMoves(o.header, first, rest);
    ProbeFinds(o.Print(), 9, o.shift);
    StartsAlike(o.header, first + rest);
  }

  lemma StartsAlike(a: seq<byte>, b: seq<byte>)
    requires |a| >= 8
    ensures Le64(a + b, 0) == Le64(a, 0)
  {
    assert [] + a + b == a + b;
    ReadShift(Little, [], a, b, 0, 8);
  }

  /** A written object lists back exactly its entries, in leaf then chunk order: whole
      values from the array listing, first eight bytes big-endian from the other. */
  lemma WrittenObjectLists(o: Object)
    requires o.Ok()
    ensures ArrayListing(o.Print()) == ListedRegions(o.regions)
    ensures Listing(o.Print()) == FoldAll(ListedRegions(o.regions))
    ensures var entries, listing := ListedRegions(o.regions), Listing(o.Print());
            |listing| == |entries| && forall i :: 0 <= i < |entries| ==>
              listing[i].name == entries[i].name && listing[i].value == BeNat(Take(entries[i].value, 8))
  {
    hide FatFrom, PrintRegions, ProbeFrom, ListedRegions, LeafSignature, FoldAll, MicroFrom, ReadU64, Power;
    ObjectSize(o);
    RegionsListed(o.header, o.regions, o.shift);
  }

  predicate DistinctNames<T>(entries: seq<Named<T>>) {
    forall i, j :: 0 <= i < j < |entries| ==> entries[i].name != entries[j].name
  }

  lemma {:induction false} FindsAt(entries: seq<Named<u64>>, i: nat)
    requires DistinctNames(entries) && i < |entries|
    ensures Find(entries, entries[i].name) == Some(entries[i].value)
    decreases i
  {
    if i == 0 {
    } else {
      FindsAt(entries[1..], i - 1);
    }
  }

  /** Looking a stored name up finds its own value's first eight bytes. */
  lemma WrittenNameIsFound(o: Object)
    requires o.Ok()
    ensures var entries := ListedRegions(o.regions);
            DistinctNames(entries) ==> forall i :: 0 <= i < |entries| ==>
              ZapLookup(o.Print(), entries[i].name) == Some(BeNat(Take(entries[i].value, 8)))
  {
    hide ListedRegions, Listing, Folded, Find;
    WrittenObjectLists(o);
    var entries := ListedRegions(o.regions);
    if DistinctNames(entries) {
      forall i | 0 <= i < |entries|
        ensures ZapLookup(o.Print(), entries[i].name) == Some(BeNat(Take(entries[i].value, 8)))
      {
        FindsAt(FoldAll(entries), i);
      }
    }
  }

  /** A number stored in eight big-endian bytes is found under its name. */
  lemma WrittenNumberIsFound(o: Object, i: nat, v: u64)
    requires o.Ok() && DistinctNames(ListedRegions(o.regions)) && i < |ListedRegions(o.regions)|
    requires ListedRegions(o.regions)[i].value == BeBytes(v, 8)
    ensures ZapLookup(o.Print(), ListedRegions(o.regions)[i].name) == Some(v)
  {
    hide ListedRegions, ZapLookup;
    WrittenNameIsFound(o);
    Pow256Values();
    BeRoundTrip(v, 8);
    assert Take(BeBytes(v, 8), 8) == BeBytes(v, 8);
  }

  /** An object that is neither kind lists nothing. */
  lemma OtherObjectsListNothing(data: seq<byte>)
    requires Le64(data, 0) != 0x8000_0000_0000_0003 && Le64(data, 0) != 0x8000_0000_0000_0001
    ensures Listing(data) == [] && ArrayListing(data) == []
  {
  }

  /** Without a leaf signature at any power of two from 512 to 128 KiB, a fat object lists
      nothing, whatever lies at greater distances. */
  lemma NoSignatureListsNothing(data: seq<byte>)
    requires forall s :: 9 <= s <= 17 ==> !LeafSignature(data, Power(2, s))
    ensures FatEntries(data) == []
  {
    NoProbe(data, 9);
  }

  lemma {:induction false} NoProbe(data: seq<byte>, s: nat)
    requires 9 <= s <= 18 && forall t :: s <= t <= 17 ==> !LeafSignature(data, Power(2, t))
    ensures ProbeFrom(data, s) == |data|
    decreases 18 - s
  {
    hide LeafSignature;
    if s == 18 {
    } else {
      NoProbe(data, s + 1);
    }
  }

  // ---- micro objects -------------------------------------------------------

  /** A micro slot: its name field is the name, then a NUL and anything, or 50 name bytes. */
  datatype Slot = Slot(value: u64, cd: seq<byte>, name: seq<byte>, rest: seq<byte>) {
    predicate Ok() {
      |cd| == 6 && |name| + |rest| == MZAP_NAME_LEN && (forall i :: 0 <= i < |name| ==> name[i] != 0) &&
      (rest != [] ==> rest[0] == 0)
    }

    function Print(): (bytes: seq<byte>)
      requires Ok()
      ensures |bytes| == MZAP_ENT_SIZE
    {
      LeBytes(value, 8) + cd + (name + rest)
    }

    function Listed(): seq<Named<u64>> { if name == [] then [] else [Named(name, value)] }
  }

  predicate AllSlots(slots: seq<Slot>) { forall i :: 0 <= i < |slots| ==> slots[i].Ok() }

  function PrintSlots(slots: seq<Slot>): (bytes: seq<byte>)
    requires AllSlots(slots)
    ensures |bytes| == MZAP_ENT_SIZE * |slots|
  {
    if slots == [] then [] else slots[0].Print() + PrintSlots(slots[1..])
  }

  function ListedSlots(slots: seq<Slot>): seq<Named<u64>> {
    if slots == [] then [] else slots[0].Listed() + ListedSlots(slots[1..])
  }

  lemma {:induction false} NameEnds(name: seq<byte>, rest: seq<byte>)
    requires forall i :: 0 <= i < |name| ==> name[i] != 0
    requires rest != [] ==> rest[0] == 0
    ensures UpToNul(name + rest) == name
    decreases |name|
  {
    if name == [] {
      assert name + rest == rest;
    } else {
      SplitHead(name, rest);
      NameEnds(name[1..], rest);
    }
  }

  lemma SlotListed(data: seq<byte>, i: nat, s: Slot)
    requires i < MicroSlots(data) && s.Ok() && At(data, MicroOffset(i), s.Print())
    ensures MicroAt(data, i) == s.Listed()
  {
    hide UpToNul, ReadU64, LeBytes;
    var off := MicroOffset(i);
    AtSplit(data, off, LeBytes(s.value, 8) + s.cd, s.name + s.rest);
    AtSplit(data, off, LeBytes(s.value, 8), s.cd);
    ReadsLe64(data, off, s.value);
    NameEnds(s.name, s.rest);
  }

  lemma {:induction false} SlotsListed(data: seq<byte>, i: nat, slots: seq<Slot>, pad: nat)
    requires AllSlots(slots) && pad < MZAP_ENT_SIZE && |data| == MicroOffset(i + |slots|) + pad
    requires At(data, MicroOffset(i), PrintSlots(slots))
    ensures MicroFrom(data, i) == ListedSlots(slots)
    decreases |slots|
  {
    hide At, MicroAt;
    if slots == [] {
    } else {
      AtSplit(data, MicroOffset(i), slots[0].Print(), PrintSlots(slots[1..]));
      SlotListed(data, i, slots[0]);
      SlotsListed(data, i + 1, slots[1..], pad);
    }
  }

  /** A written micro object lists back its named slots, values and array values alike. */
  lemma WrittenMicroLists(header: seq<byte>, slots: seq<Slot>, pad: seq<byte>)
    requires |header| == MZAP_HDR_SIZE && Le64(header, 0) == ZBT_MICRO
    requires AllSlots(slots) && |pad| < MZAP_ENT_SIZE
    ensures Listing(header + PrintSlots(slots) + pad) == ListedSlots(slots)
    ensures ArrayListing(header + PrintSlots(slots) + pad) == LittleEndianValues(ListedSlots(slots))
  {
    hide PrintSlots, MicroFrom, ReadU64, LittleEndianValues;
    var data := header + PrintSlots(slots) + pad;
    Reassociate(header, PrintSlots(slots), pad);
    StartsAlike(header, PrintSlots(slots) + pad);
    AtPrefix(header, PrintSlots(slots), pad);
    SlotsListed(data, 0, slots, |pad|);
  }

  // ---- a leaf by hand ------------------------------------------------------

  /** Three chunks: an entry of two 2-byte integers, its name "3", and its value. */
  function KnownChunks(): (bytes: seq<byte>)
    ensures |bytes| == 72
  {
    ([252, 2, 0, 0, 1, 0, 1, 0, 2, 0, 2, 0] + Zeros(12))
    + (([251, 51] + Zeros(20) + [255, 255]) + ([251, 0, 5, 0, 6] + Zeros(17) + [255, 255]))
  }

  /** A 512-byte leaf of them. */
  function KnownLeaf(): (leaf: seq<byte>)
    ensures |leaf| == 512
  {
    [0, 0, 0, 0, 0, 0, 0, 0x80] + Zeros(16) + [0xaf, 0x1e, 0xab, 0x02] + Zeros(52) + KnownChunks() + Zeros(360)
  }

  lemma TwoBytes()
    ensures LeBytes(1, 2) == [1, 0] && LeBytes(2, 2) == [2, 0] && LeBytes(0xffff, 2) == [255, 255]
  {
    assert LeBytes(0, 1) == [0] && LeBytes(255, 1) == [255];
  }

  function ChunkAt(i: nat): (c: Chunk)
    ensures c.Ok()
  {
    if i == 0 then EntryChunk(2, 1, 1, 2, 2, [0, 0], Zeros(12))
    else if i == 1 then ArrayChunk([51] + Zeros(20), 0xffff)
    else if i == 2 then ArrayChunk([0, 5, 0, 6] + Zeros(17), 0xffff)
    else OtherChunk(Zeros(24))
  }

  lemma KnownChunksAt(i: nat)
    requires i < 18
    ensures At(KnownLeaf(), 80 + 24 * i, PrintChunk(ChunkAt(i)))
  {
    TwoBytes();
    var leaf := KnownLeaf();
    if i == 0 {
      assert leaf[80..104] == [252, 2, 0, 0, 1, 0, 1, 0, 2, 0, 2, 0] + Zeros(12);
      assert PrintChunk(ChunkAt(0)) == [252, 2, 0, 0, 1, 0, 1, 0, 2, 0, 2, 0] + Zeros(12);
    } else if i == 1 {
      assert leaf[104..128] == [251, 51] + Zeros(20) + [255, 255];
      assert PrintChunk(ChunkAt(1)) == [251, 51] + Zeros(20) + [255, 255];
    } else if i == 2 {
      assert leaf[128..152] == [251, 0, 5, 0, 6] + Zeros(17) + [255, 255];
      assert PrintChunk(ChunkAt(2)) == [251, 0, 5, 0, 6] + Zeros(17) + [255, 255];
    } else {
      assert leaf[80 + 24 * i..80 + 24 * i + 24] == Zeros(24);
    }
  }

  function KnownEntry(): Stored { Stored(0, [51], false, 2, 2, [0, 5, 0, 6], [1], [2], [0, 0], Zeros(12)) }

  function AllKnown(): seq<Chunk> { seq(18, i requires 0 <= i < 18 => ChunkAt(i)) }

  lemma KnownArea()
    ensures LeafArea(KnownLeaf(), 512) == Some(Area(KnownLeaf(), 80, 18))
    ensures HoldsChunks(Area(KnownLeaf(), 80, 18), AllKnown())
  {
    hide KnownLeaf, PrintChunk, At;
    assert Power(2, 4) == 16 && Power(2, 9) == 32 * Power(2, 4);
    TrailingZerosPow2(9);
    var a := Area(KnownLeaf(), 80, 18);
    forall i | 0 <= i < 18 ensures At(a.leaf, a.Offset(i), PrintChunk(AllKnown()[i])) {
      KnownChunksAt(i);
    }
  }

  lemma KnownCovers()
    ensures Covers(AllKnown(), [KnownEntry()], 0)
  {
    var e, chunks := KnownEntry(), AllKnown();
    assert e.Fits(18) && e.Entry(18) == chunks[0];
    assert Padded([51]) == [51] + Zeros(20) && Padded([0, 5, 0, 6]) == [0, 5, 0, 6] + Zeros(17);
    assert Drop([51], 21) == [] && Drop([0, 5, 0, 6], 21) == [];
    assert HoldsChain(chunks, [51], [1]) && HoldsChain(chunks, [0, 5, 0, 6], [2]);
    assert [1][1..] == [] && [2][1..] == [];
    var cells := e.Cells();
    assert cells == [1, 2, 0];
    assert [e][0].at == 0;
  }

  /** The leaf is recognised, and lists the name with its four value bytes. */
  lemma KnownLeafLists()
    ensures LeafSignature(KnownLeaf(), 0)
    ensures LeafEntries(KnownLeaf(), 512) == [Named([51], [0, 5, 0, 6])]
  {
    hide KnownLeaf, Covers, HoldsChunks, ListedFrom, KnownEntry, LeafArea, LeafSignature;
    KnownSignature();
    KnownArea();
    KnownCovers();
    CoveredIsListed(Area(KnownLeaf(), 80, 18), AllKnown(), [KnownEntry()], 0);
    KnownIsListed();
  }

  lemma KnownIsListed()
    ensures ListedPlan([KnownEntry()]) == [Named([51], [0, 5, 0, 6])]
  {
    assert [KnownEntry()][1..] == [];
  }

  lemma KnownSignature()
    ensures LeafSignature(KnownLeaf(), 0)
  {
    hide KnownChunks;
    var leaf := KnownLeaf();
    assert leaf[0..8] == [0, 0, 0, 0, 0, 0, 0, 0x80] && leaf[24..28] == [0xaf, 0x1e, 0xab, 0x02];
    KnownNumbers();
    LeReads(leaf, 0, 8);
    LeReads(leaf, 24, 4);
  }

  lemma LeReads(data: seq<byte>, off: nat, n: nat)
    requires off + n <= |data|
    ensures ReadNat(Little, data, off, n) == LeNat(data[off..off + n])
  {
  }

  lemma KnownNumbers()
    ensures LeNat([0, 0, 0, 0, 0, 0, 0, 0x80]) == 0x8000_0000_0000_0000
    ensures LeNat([0xaf, 0x1e, 0xab, 0x02]) == 0x02ab_1eaf
  {
    assert LeNat([0x80]) == 0x80 && LeNat([0, 0x80]) == 0x8000 && LeNat([0, 0, 0x80]) == 0x80_0000;
    assert LeNat([0, 0, 0, 0x80]) == 0x8000_0000 && LeNat([0, 0, 0, 0, 0x80]) == 0x80_0000_0000;
    assert LeNat([0, 0, 0, 0, 0, 0x80]) == 0x8000_0000_0000;
    assert LeNat([0, 0, 0, 0, 0, 0, 0x80]) == 0x80_0000_0000_0000;
    assert LeNat([0x02]) == 2 && LeNat([0xab, 0x02]) == 0x2ab && LeNat([0x1e, 0xab, 0x02]) == 0x2_ab1e;
  }

  // ---- a micro object by hand ----------------------------------------------

  /** One slot at byte 64: value 34 at its start, the name "ROOT" 14 bytes in, up to a NUL;
      then a slot whose name fills all 50 bytes, and one without a name. */
  function KnownMicro(): seq<byte> {
    [3, 0, 0, 0, 0, 0, 0, 0x80] + Zeros(56)
    + ([34, 0, 0, 0, 0, 0, 0, 0] + Zeros(6) + [82, 79, 79, 84, 0] + Repeat<byte>(7, 45))
    + ([5, 0, 0, 0, 0, 0, 0, 0] + Zeros(6) + Repeat<byte>(9, 50)) + Zeros(64) + Zeros(63)
  }

  lemma SmallLe(v: byte)
    ensures LeBytes(v, 8) == [v, 0, 0, 0, 0, 0, 0, 0]
  {
    assert v as nat / 256 == 0;
    assert LeBytes(0, 1) == [0] && LeBytes(0, 2) == [0, 0] && LeBytes(0, 3) == [0, 0, 0];
    assert LeBytes(0, 4) == [0, 0, 0, 0];
    assert LeBytes(0, 5) == [0, 0, 0, 0, 0] && LeBytes(0, 6) == [0, 0, 0, 0, 0, 0];
    assert LeBytes(0, 7) == [0, 0, 0, 0, 0, 0, 0] && LeBytes(v as nat, 8) == [v] + LeBytes(0, 7);
  }

  lemma KnownMicroLists()
    ensures Listing(KnownMicro()) == [Named([82, 79, 79, 84], 34), Named(Repeat<byte>(9, 50), 5)]
  {
    hide LeBytes, Listing, ArrayListing, ReadNat;
    var header := [3, 0, 0, 0, 0, 0, 0, 0x80] + Zeros(56);
    var first := Slot(34, Zeros(6), [82, 79, 79, 84], [0] + Repeat<byte>(7, 45));
    var second := Slot(5, Zeros(6), Repeat<byte>(9, 50), []);
    var third := Slot(0, Zeros(6), [], Zeros(50));
    MicroTag(header);
    SmallLe(34);
    SmallLe(5);
    SmallLe(0);
    assert first.Ok() && second.Ok() && third.Ok();
    var a, b, c := first.Print(), second.Print(), third.Print();
    assert a == [34, 0, 0, 0, 0, 0, 0, 0] + Zeros(6) + [82, 79, 79, 84, 0] + Repeat<byte>(7, 45);
    assert b == [5, 0, 0, 0, 0, 0, 0, 0] + Zeros(6) + Repeat<byte>(9, 50);
    assert c == Zeros(64);
    ThreeSlots(first, second, third);
    assert KnownMicro() == header + (a + (b + c)) + Zeros(63);
    WrittenMicroLists(header, [first, second, third], Zeros(63));
  }

  lemma MicroTag(header: seq<byte>)
    requires |header| == 64 && header[0..8] == [3, 0, 0, 0, 0, 0, 0, 0x80]
    ensures Le64(header, 0) == ZBT_MICRO
  {
    LeReads(header, 0, 8);
    assert LeNat([0x80]) == 0x80 && LeNat([0, 0x80]) == 0x8000 && LeNat([0, 0, 0x80]) == 0x80_0000;
    assert LeNat([0, 0, 0, 0x80]) == 0x8000_0000 && LeNat([0, 0, 0, 0, 0x80]) == 0x80_0000_0000;
    assert LeNat([0, 0, 0, 0, 0, 0x80]) == 0x8000_0000_0000;
    assert LeNat([0, 0, 0, 0, 0, 0, 0x80]) == 0x80_0000_0000_0000;
    assert LeNat([3, 0, 0, 0, 0, 0, 0, 0x80]) == 3 + 256 * 0x80_0000_0000_0000;
  }

  lemma ThreeSlots(x: Slot, y: Slot, z: Slot)
    requires x.Ok() && y.Ok() && z.Ok()
    ensures AllSlots([x, y, z]) && PrintSlots([x, y, z]) == x.Print() + (y.Print() + z.Print())
    ensures ListedSlots([x, y, z]) == x.Listed() + (y.Listed() + z.Listed())
  {
    hide Slot.Print, Slot.Listed;
    assert [x, y, z][1..] == [y, z] && [y, z][1..] == [z] && [z][1..] == [];
    assert PrintSlots([z]) == z.Print() + [] && ListedSlots([z]) == z.Listed() + [];
    assert PrintSlots([y, z]) == y.Print() + PrintSlots([z]);
    assert ListedSlots([y, z]) == y.Listed() + ListedSlots([z]);
  }
}
