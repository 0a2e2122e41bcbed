/** The choice of the active uberblock: one ring (core/src/label.rs), and all the rings of
    an image at the smallest slot size (core/src/vfs.rs). */
module Label {
  import opened Arithmetic
  import opened Bytes

  const LABEL_SIZE := 0x4_0000
  const RING_OFFSET := 0x2_0000
  const RING_SIZE := 0x2_0000
  const MIN_SLOT := 1024
  const UBERBLOCK_MAGIC := 0x00ba_b10c
  const ROOTBP_OFFSET := 40
  const ROOTBP_SIZE := 128

  datatype Uberblock = Uberblock(endian: Endian, version: u64, txg: u64, guidSum: u64, timestamp: u64,
                                 rootbp: seq<byte>)

  function DetectEndian(slot: seq<byte>): Option<Endian> {
    if ReadU64(Little, slot, 0) == UBERBLOCK_MAGIC then Some(Little)
    else if ReadU64(Big, slot, 0) == UBERBLOCK_MAGIC then Some(Big)
    else None
  }

  /** A slot's uberblock, if its magic is there in either byte order. A slot too short for
      the root pointer leaves it zeroed. */
  function Parse(slot: seq<byte>): Option<Uberblock> {
    match DetectEndian(slot)
    case None => None
    case Some(e) =>
      var rootbp := match Slice(slot, ROOTBP_OFFSET, ROOTBP_OFFSET + ROOTBP_SIZE)
                    case None => Repeat(0, ROOTBP_SIZE)
                    case Some(raw) => raw;
      Some(Uberblock(e, ReadU64(e, slot, 8), ReadU64(e, slot, 16), ReadU64(e, slot, 24), ReadU64(e, slot, 32), rootbp))
  }

  // ---- one ring ------------------------------------------------------------

  function SlotStart(s: nat, size: nat): nat {
    MulNonneg(s, size);
    s * size
  }

  lemma LaterStart(s: nat, t: nat, size: nat)
    requires s <= t
    ensures SlotStart(s, size) <= SlotStart(t, size)
  {
    MulNonneg(t - s, size);
    Distribute(size, s, t - s);
  }

  /** The uberblock in slot `s`, if the slot lies in the ring whole and holds one. */
  function SlotAt(ring: seq<byte>, size: nat, s: nat): Option<Uberblock> {
    match Slice(ring, SlotStart(s, size), SlotStart(s, size) + size)
    case None => None
    case Some(slot) => Parse(slot)
  }

  /** Slot `t` is no better than slot `s` holding `ub`: not newer, and older if it comes first. */
  predicate NoBetter(ring: seq<byte>, size: nat, t: nat, ub: Uberblock, s: nat) {
    var v := SlotAt(ring, size, t);
    v.Some? ==> v.value.txg <= ub.txg && (t < s ==> v.value.txg < ub.txg)
  }

  /** The greatest `txg` among the first `count` slots, at its lowest slot. */
  predicate RingBest(ring: seq<byte>, size: nat, count: nat, best: Option<(Uberblock, nat)>) {
    match best
    case None => forall t :: 0 <= t < count ==> SlotAt(ring, size, t) == None
    case Some((ub, s)) =>
      s < count && SlotAt(ring, size, s) == Some(ub) &&
      forall t :: 0 <= t < count ==> NoBetter(ring, size, t, ub, s)
  }

  method ActiveUberblock(ring: seq<byte>, slotSize: nat, slotCount: nat) returns (best: Option<(Uberblock, nat)>)
    ensures RingBest(ring, slotSize, slotCount, best)
  {
    hide Parse, SlotStart;
    best := None;
    var slot := 0;
    while slot < slotCount
      invariant 0 <= slot <= slotCount
      invariant RingBest(ring, slotSize, slot, best)
    {
      var start := SlotStart(slot, slotSize);
      var bytes := Slice(ring, start, start + slotSize);
      if bytes.None? {
        NothingAfter(ring, slotSize, slot, slotCount);
        break;
      }
      var ub := Parse(bytes.value);
      RingStep(ring, slotSize, slot, best);
      if ub.Some? && (best.None? || ub.value.txg > best.value.0.txg) {
        best := Some((ub.value, slot));
      }
      slot := slot + 1;
    }
  }

  function Better(best: Option<(Uberblock, nat)>, ub: Option<Uberblock>, slot: nat): Option<(Uberblock, nat)> {
    if ub.Some? && (best.None? || ub.value.txg > best.value.0.txg) then Some((ub.value, slot)) else best
  }

  /** The running best after one more slot. */
  lemma RingStep(ring: seq<byte>, size: nat, slot: nat, best: Option<(Uberblock, nat)>)
    requires RingBest(ring, size, slot, best)
    ensures RingBest(ring, size, slot + 1, Better(best, SlotAt(ring, size, slot), slot))
  {
    hide SlotAt;
    var next := Better(best, SlotAt(ring, size, slot), slot);
    if next.Some? {
      forall t | 0 <= t < slot + 1 ensures NoBetter(ring, size, t, next.value.0, next.value.1) {
        if t < slot && best.Some? { assert NoBetter(ring, size, t, best.value.0, best.value.1); }
      }
    }
  }

  /** The best slot as a function of the ring. */
  function ActiveSlot(ring: seq<byte>, size: nat, count: nat): Option<(Uberblock, nat)> {
    if count == 0 then None
    else Better(ActiveSlot(ring, size, count - 1), SlotAt(ring, size, count - 1), count - 1)
  }

  lemma {:induction false} ActiveSlotIsBest(ring: seq<byte>, size: nat, count: nat)
    ensures RingBest(ring, size, count, ActiveSlot(ring, size, count))
    decreases count
  {
    hide SlotAt;
    if count == 0 {
    } else {
      ActiveSlotIsBest(ring, size, count - 1);
      RingStep(ring, size, count - 1, ActiveSlot(ring, size, count - 1));
    }
  }

  /** Past the first slot that sticks out of the ring there are no more slots. */
  lemma NothingAfter(ring: seq<byte>, size: nat, slot: nat, count: nat)
    requires SlotStart(slot, size) + size > |ring|
    ensures forall t :: slot <= t < count ==> SlotAt(ring, size, t) == None
  {
    forall t | slot <= t < count ensures SlotAt(ring, size, t) == None {
      LaterStart(slot, t, size);
    }
  }

  /** The best slot is determined. */
  lemma RingBestUnique(ring: seq<byte>, size: nat, count: nat, a: Option<(Uberblock, nat)>, b: Option<(Uberblock, nat)>)
    requires RingBest(ring, size, count, a) && RingBest(ring, size, count, b)
    ensures a == b
  {
    hide SlotAt;
    if a.Some? && b.Some? {
      assert NoBetter(ring, size, a.value.1, b.value.0, b.value.1);
      assert NoBetter(ring, size, b.value.1, a.value.0, a.value.1);
    }
  }

  // ---- all rings of an image -----------------------------------------------

  function LabelOffsets(size: nat): seq<nat> {
    if size >= 4 * LABEL_SIZE then [0, LABEL_SIZE, size - 2 * LABEL_SIZE, size - LABEL_SIZE]
    else [0, LABEL_SIZE]
  }

  /** The ring of the label at `base`, as far as the image goes. */
  function RingAt(image: seq<byte>, base: nat): Option<seq<byte>> {
    Slice(image, base + RING_OFFSET, Min(base + RING_OFFSET + RING_SIZE, |image|))
  }

  function RingsOf(image: seq<byte>, offsets: seq<nat>): seq<seq<byte>> {
    if offsets == [] then []
    else
      RingsOf(image, offsets[..|offsets| - 1]) +
      match RingAt(image, offsets[|offsets| - 1])
      case None => []
      case Some(ring) => [ring]
  }

  function Rings(image: seq<byte>): seq<seq<byte>> { RingsOf(image, LabelOffsets(|image|)) }

  /** An uberblock and where it was found. */
  datatype Found = Found(ring: nat, slot: nat, ub: Uberblock)

  predicate Earlier(l: nat, s: nat, f: Found) { l < f.ring || (l == f.ring && s < f.slot) }

  predicate Loses(rings: seq<seq<byte>>, size: nat, l: nat, s: nat, f: Found)
    requires l < |rings|
  {
    var v := SlotAt(rings[l], size, s);
    v.Some? ==> v.value.txg <= f.ub.txg && (Earlier(l, s, f) ==> v.value.txg < f.ub.txg)
  }

  /** The greatest `txg` over all whole slots of all rings; the first of equals. */
  ghost predicate Best(rings: seq<seq<byte>>, size: nat, best: Option<Found>) {
    match best
    case None => forall l: nat, s: nat :: l < |rings| ==> SlotAt(rings[l], size, s) == None
    case Some(f) =>
      f.ring < |rings| && SlotAt(rings[f.ring], size, f.slot) == Some(f.ub) &&
      forall l: nat, s: nat :: l < |rings| ==> Loses(rings, size, l, s, f)
  }

  /** `r` is the uberblock of a best slot over all rings of the image. */
  ghost predicate Active(image: seq<byte>, r: Option<Uberblock>) {
    exists at: Option<Found> :: Best(Rings(image), MIN_SLOT, at) && r == UberblockOf(at)
  }

  function UberblockOf(at: Option<Found>): Option<Uberblock> {
    if at.None? then None else Some(at.value.ub)
  }

  method ActiveUberblockAcrossLabels(image: seq<byte>) returns (best: Option<Uberblock>)
    ensures Active(image, best)
  {
    hide SlotAt, RingAt, RingsOf, Loses, LabelOffsets, RingBest, Best;
    NoRings(image);
    var offsets := LabelOffsets(|image|);
    best := None;
    ghost var at: Option<Found> := None;
    var k := 0;
    while k < |offsets|
      invariant 0 <= k <= |offsets|
      invariant Best(RingsOf(image, offsets[..k]), MIN_SLOT, at) && best == UberblockOf(at)
    {
      RingsStep(image, offsets, k);
      ghost var before := RingsOf(image, offsets[..k]);
      var ring := RingAt(image, offsets[k]);
      k := k + 1;
      if ring.None? { continue; }
      var here := ActiveUberblock(ring.value, MIN_SLOT, |ring.value| / MIN_SLOT);
      BestExtends(before, ring.value, at, here);
      if here.Some? && (best.None? || here.value.0.txg > best.value.txg) {
        best := Some(here.value.0);
        at := Some(Found(|before|, here.value.1, here.value.0));
      }
    }
    assert offsets[..k] == offsets;
  }

  lemma NoRings(image: seq<byte>)
    ensures Best(RingsOf(image, []), MIN_SLOT, None)
  {
  }

  lemma RingsStep(image: seq<byte>, offsets: seq<nat>, k: nat)
    requires k < |offsets|
    ensures RingsOf(image, offsets[..k + 1])
         == match RingAt(image, offsets[k])
            case None => RingsOf(image, offsets[..k])
            case Some(ring) => RingsOf(image, offsets[..k]) + [ring]
  {
    assert offsets[..k + 1][..k] == offsets[..k];
  }

  function BetterRing(at: Option<Found>, best: Option<(Uberblock, nat)>, ring: nat): Option<Found> {
    if best.Some? && (at.None? || best.value.0.txg > at.value.ub.txg)
    then Some(Found(ring, best.value.1, best.value.0)) else at
  }

  /** The running best after one more ring. */
  lemma BestExtends(rings: seq<seq<byte>>, ring: seq<byte>, at: Option<Found>, best: Option<(Uberblock, nat)>)
    requires Best(rings, MIN_SLOT, at) && RingBest(ring, MIN_SLOT, |ring| / MIN_SLOT, best)
    ensures Best(rings + [ring], MIN_SLOT, BetterRing(at, best, |rings|))
  {
    hide SlotAt;
    var all, next := rings + [ring], BetterRing(at, best, |rings|);
    forall l: nat, s: nat | l < |all|
      ensures if next.None? then SlotAt(all[l], MIN_SLOT, s) == None else Loses(all, MIN_SLOT, l, s, next.value)
    {
      if l < |rings| {
        assert all[l] == rings[l];
        assert at.Some? ==> Loses(rings, MIN_SLOT, l, s, at.value);
      } else if s >= |ring| / MIN_SLOT {
        BeyondLast(ring, s);
      } else {
        assert best.Some? ==> NoBetter(ring, MIN_SLOT, s, best.value.0, best.value.1);
      }
    }
  }

  lemma BeyondLast(ring: seq<byte>, s: nat)
    requires s >= |ring| / MIN_SLOT
    ensures SlotAt(ring, MIN_SLOT, s) == None
  {
  }

  // ---- the smallest slot size against a larger one -------------------------

  lemma SamePrefixRead(e: Endian, slot: seq<byte>, n: nat, off: nat)
    requires off + 8 <= n <= |slot|
    ensures ReadU64(e, slot, off) == ReadU64(e, slot[..n], off)
  {
    assert slot[..n][off..off + 8] == slot[off..off + 8];
  }

  /** An uberblock lies within its slot's first 168 bytes. */
  lemma ParsePrefix(slot: seq<byte>, n: nat)
    requires ROOTBP_OFFSET + ROOTBP_SIZE <= n <= |slot|
    ensures Parse(slot) == Parse(slot[..n])
  {
    hide ReadU64;
    forall e: Endian, off: nat | off in {0, 8, 16, 24, 32}
      ensures ReadU64(e, slot, off) == ReadU64(e, slot[..n], off)
    {
      SamePrefixRead(e, slot, n, off);
    }
    assert slot[..n][ROOTBP_OFFSET..ROOTBP_OFFSET + ROOTBP_SIZE] == slot[ROOTBP_OFFSET..ROOTBP_OFFSET + ROOTBP_SIZE];
  }

  /** A whole slot of `m` KiB is the KiB slot at its start. */
  lemma CoarseIsFine(ring: seq<byte>, m: nat, s: nat)
    requires m > 0 && SlotStart(s, MIN_SLOT * m) + MIN_SLOT * m <= |ring|
    ensures SlotStart(s, MIN_SLOT * m) == SlotStart(SlotStart(s, m), MIN_SLOT)
    ensures SlotAt(ring, MIN_SLOT, SlotStart(s, m)) == SlotAt(ring, MIN_SLOT * m, s)
  {
    hide Parse;
    Associate(s, m, MIN_SLOT);
    var start := SlotStart(s, MIN_SLOT * m);
    var slot := ring[start..start + MIN_SLOT * m];
    ParsePrefix(slot, MIN_SLOT);
    SliceOfSlice(ring, start, MIN_SLOT * m, 0, MIN_SLOT);
  }

  lemma CoarseFits(ring: seq<byte>, m: nat, s: nat)
    requires m > 0 && SlotAt(ring, MIN_SLOT * m, s).Some?
    ensures SlotAt(ring, MIN_SLOT, SlotStart(s, m)) == SlotAt(ring, MIN_SLOT * m, s)
  {
    hide Parse;
    CoarseIsFine(ring, m, s);
  }

  /** The scan at 1 KiB finds a `txg` at least as great as the scan at any multiple of it. */
  lemma FineScanDominates(rings: seq<seq<byte>>, m: nat, fine: Option<Found>, coarse: Option<Found>)
    requires m > 0 && Best(rings, MIN_SLOT, fine) && Best(rings, MIN_SLOT * m, coarse)
    ensures coarse.Some? ==> fine.Some? && coarse.value.ub.txg <= fine.value.ub.txg
  {
    hide SlotAt, SlotStart;
    if coarse.Some? {
      var c := coarse.value;
      CoarseFits(rings[c.ring], m, c.slot);
      assert fine.Some? ==> Loses(rings, MIN_SLOT, c.ring, SlotStart(c.slot, m), fine.value);
    }
  }

  /** The found KiB slot starts a whole slot of `m` KiB. */
  predicate OnStride(rings: seq<seq<byte>>, m: nat, f: Found)
    requires m > 0
  {
    f.ring < |rings| && f.slot % m == 0 && SlotStart(f.slot, MIN_SLOT) + MIN_SLOT * m <= |rings[f.ring]|
  }

  predicate SamePlace(m: nat, fine: Option<Found>, coarse: Option<Found>) {
    if fine.None? || coarse.None? then fine.None? && coarse.None?
    else fine.value == Found(coarse.value.ring, SlotStart(coarse.value.slot, m), coarse.value.ub)
  }

  lemma StrideSlot(s: nat, m: nat) returns (k: nat)
    requires m > 0 && s % m == 0
    ensures SlotStart(k, m) == s
  {
    k := s / m;
    assert (s / m) * m + s % m == s;
  }

  lemma StartIsMultiple(k: nat, m: nat)
    requires m > 0
    ensures SlotStart(k, m) % m == 0
  {
    DivModOf(SlotStart(k, m), m, k, 0);
  }

  lemma StrictlyLater(s: nat, t: nat, m: nat)
    requires m > 0 && s < t
    ensures SlotStart(s, m) < SlotStart(t, m)
  {
    AtLeast(t - s, m);
    Distribute(m, s, t - s);
  }

  lemma StrideToCoarse(rings: seq<seq<byte>>, m: nat, f: Found) returns (k: nat)
    requires m > 0 && OnStride(rings, m, f)
    ensures SlotStart(k, m) == f.slot
    ensures SlotAt(rings[f.ring], MIN_SLOT * m, k) == SlotAt(rings[f.ring], MIN_SLOT, f.slot)
  {
    hide Parse, SlotAt;
    k := StrideSlot(f.slot, m);
    Associate(k, m, MIN_SLOT);
    CoarseIsFine(rings[f.ring], m, k);
  }

  lemma CoarseOnStride(rings: seq<seq<byte>>, m: nat, c: Found)
    requires m > 0 && c.ring < |rings| && SlotAt(rings[c.ring], MIN_SLOT * m, c.slot).Some?
    ensures OnStride(rings, m, Found(c.ring, SlotStart(c.slot, m), c.ub))
  {
    hide Parse;
    StartIsMultiple(c.slot, m);
    CoarseIsFine(rings[c.ring], m, c.slot);
  }

  /** Two best slots of the coarse scan's order cannot differ. */
  lemma OnStrideWins(rings: seq<seq<byte>>, m: nat, f: Found, coarse: Option<Found>)
    requires m > 0 && Best(rings, MIN_SLOT, Some(f)) && Best(rings, MIN_SLOT * m, coarse) && OnStride(rings, m, f)
    ensures SamePlace(m, Some(f), coarse)
  {
    hide SlotAt, SlotStart, OnStride;
    FineScanDominates(rings, m, Some(f), coarse);
    var k := StrideToCoarse(rings, m, f);
    assert coarse.Some?;
    var c := coarse.value;
    assert Loses(rings, MIN_SLOT * m, f.ring, k, c);
    CoarseFits(rings[c.ring], m, c.slot);
    assert Loses(rings, MIN_SLOT, c.ring, SlotStart(c.slot, m), f);
    if c.slot < k { StrictlyLater(c.slot, k, m); }
  }

  /** The two scans find one and the same uberblock exactly when the finer one's find
      starts a whole coarse slot, or finds nothing. */
  lemma AgreeIffFoundOnStride(rings: seq<seq<byte>>, m: nat, fine: Option<Found>, coarse: Option<Found>)
    requires m > 0 && Best(rings, MIN_SLOT, fine) && Best(rings, MIN_SLOT * m, coarse)
    ensures SamePlace(m, fine, coarse) <==> fine.None? || OnStride(rings, m, fine.value)
  {
    hide SlotAt, SlotStart, OnStride;
    FineScanDominates(rings, m, fine, coarse);
    if fine.Some? && OnStride(rings, m, fine.value) {
      OnStrideWins(rings, m, fine.value, coarse);
    }
    if fine.Some? && SamePlace(m, fine, coarse) {
      CoarseOnStride(rings, m, coarse.value);
    }
  }

  /** A KiB slot of the rings that holds this uberblock. */
  predicate Holds(rings: seq<seq<byte>>, f: Found) {
    f.ring < |rings| && SlotAt(rings[f.ring], MIN_SLOT, f.slot) == Some(f.ub)
  }

  /** `w` is newer, or as new and found first. */
  predicate Beats(w: Found, f: Found) {
    f.ub.txg < w.ub.txg || (f.ub.txg == w.ub.txg && Earlier(w.ring, w.slot, f))
  }

  /** Every uberblock off the stride is beaten by one on it. */
  ghost predicate StrideHolds(rings: seq<seq<byte>>, m: nat)
    requires m > 0
  {
    forall f: Found :: Holds(rings, f) && !OnStride(rings, m, f) ==> BeatenOnStride(rings, m, f)
  }

  ghost predicate BeatenOnStride(rings: seq<seq<byte>>, m: nat, f: Found)
    requires m > 0
  {
    exists w: Found :: Holds(rings, w) && OnStride(rings, m, w) && Beats(w, f)
  }

  /** What the rings must hold for the scan at 1 KiB and the scan at `m` KiB to find one and
      the same uberblock: every uberblock off the larger stride is beaten by one on it. */
  lemma ScansAgreeExactly(rings: seq<seq<byte>>, m: nat, fine: Option<Found>, coarse: Option<Found>)
    requires m > 0 && Best(rings, MIN_SLOT, fine) && Best(rings, MIN_SLOT * m, coarse)
    ensures SamePlace(m, fine, coarse) <==> StrideHolds(rings, m)
  {
    hide SlotAt, OnStride, SlotStart, SamePlace;
    AgreeIffFoundOnStride(rings, m, fine, coarse);
    if fine.Some? {
      assert Holds(rings, fine.value);
      forall f: Found | Holds(rings, f) ensures !Beats(f, fine.value) && (f == fine.value || Beats(fine.value, f)) {
        assert Loses(rings, MIN_SLOT, f.ring, f.slot, fine.value);
      }
    }
  }

  /** Where the magic occurs only at the starts of whole coarse slots, the scan at 1 KiB
      finds what the coarse scan finds. */
  lemma ScansAgree(rings: seq<seq<byte>>, m: nat, fine: Option<Found>, coarse: Option<Found>)
    requires m > 0 && Best(rings, MIN_SLOT, fine) && Best(rings, MIN_SLOT * m, coarse)
    requires forall f: Found :: f.ring < |rings| && SlotAt(rings[f.ring], MIN_SLOT, f.slot) == Some(f.ub)
               ==> OnStride(rings, m, f)
    ensures SamePlace(m, fine, coarse)
  {
    hide SlotAt, OnStride, SlotStart;
    AgreeIffFoundOnStride(rings, m, fine, coarse);
  }

  /** For one ring, the best over all is the best of the ring. */
  lemma LoneRing(ring: seq<byte>, size: nat, best: Option<(Uberblock, nat)>)
    requires size > 0 && RingBest(ring, size, |ring| / size, best)
    ensures Best([ring], size, match best case None => None case Some((ub, s)) => Some(Found(0, s, ub)))
  {
    hide SlotAt;
    forall s: nat | s >= |ring| / size ensures SlotAt(ring, size, s) == None {
      SlotBeyond(ring, size, s);
    }
    if best.Some? {
      var (ub, k) := best.value;
      forall l: nat, s: nat | l < 1 ensures Loses([ring], size, l, s, Found(0, k, ub)) {
        assert s < |ring| / size ==> NoBetter(ring, size, s, ub, k);
      }
    }
  }

  lemma SlotBeyond(ring: seq<byte>, size: nat, s: nat)
    requires size > 0 && s >= |ring| / size
    ensures SlotAt(ring, size, s) == None
  {
    var q := |ring| / size;
    LaterStart(q, s, size);
    assert SlotStart(q, size) + |ring| % size == |ring|;
  }

  function PrintSlot(txg: u64): (slot: seq<byte>)
    ensures |slot| == MIN_SLOT
  {
    LeBytes(UBERBLOCK_MAGIC, 8) + LeBytes(0, 8) + LeBytes(txg, 8) + Repeat(0, 1000)
  }

  lemma PrintedTxg(txg: u64)
    ensures Parse(PrintSlot(txg)).Some? && Parse(PrintSlot(txg)).value.txg == txg
  {
    hide LeBytes, At, ReadU64;
    var slot, magic, version, t := PrintSlot(txg), LeBytes(UBERBLOCK_MAGIC, 8), LeBytes(0, 8), LeBytes(txg, 8);
    StartsWith(magic + version + t, Repeat(0, 1000));
    AtSplit(slot, 0, magic + version, t);
    AtSplit(slot, 0, magic, version);
    ReadsLe64(slot, 0, UBERBLOCK_MAGIC);
    ReadsLe64(slot, 16, txg);
  }

  /** A 4 KiB slot whose inside happens to hold a newer uberblock at 1 KiB: on this image
      the scan at 1 KiB reports another `txg` than the scan at the slot size the pool used. */
  lemma InteriorMagicMisleads(a: u64, b: u64)
    requires a < b
    ensures forall fine: Option<Found>, coarse: Option<Found> ::
              Best(Rings(NestedImage(a, b)), MIN_SLOT, fine) && Best(Rings(NestedImage(a, b)), MIN_SLOT * 4, coarse)
              ==> fine.Some? && coarse.Some? && coarse.value.ub.txg == a && fine.value.ub.txg >= b
  {
    hide SlotAt, Nested, Best, Rings, NestedImage;
    NestedRings(a, b);
    forall fine: Option<Found>, coarse: Option<Found>
      | Best([Nested(a, b)], MIN_SLOT, fine) && Best([Nested(a, b)], MIN_SLOT * 4, coarse)
      ensures fine.Some? && coarse.Some? && coarse.value.ub.txg == a && fine.value.ub.txg >= b
    {
      Misled(a, b, fine, coarse);
    }
  }

  function Nested(a: u64, b: u64): (ring: seq<byte>)
    ensures |ring| == MIN_SLOT * 4
  {
    PrintSlot(a) + (PrintSlot(b) + Repeat(0, 2048))
  }

  /** An image that ends after the first slot of its first label's ring. */
  function NestedImage(a: u64, b: u64): seq<byte> { Repeat(0, RING_OFFSET) + Nested(a, b) }

  lemma NestedRings(a: u64, b: u64)
    ensures Rings(NestedImage(a, b)) == [Nested(a, b)]
  {
    hide Nested, RingAt, RingsOf;
    var image := NestedImage(a, b);
    NestedRing(a, b);
    RingsOfTwo(image, 0, LABEL_SIZE);
  }

  lemma NestedRing(a: u64, b: u64)
    ensures RingAt(NestedImage(a, b), 0) == Some(Nested(a, b)) && RingAt(NestedImage(a, b), LABEL_SIZE) == None
  {
    hide Nested;
    var image := NestedImage(a, b);
    assert image[RING_OFFSET..|image|] == Nested(a, b);
  }

  function RingList(image: seq<byte>, base: nat): seq<seq<byte>> {
    match RingAt(image, base)
    case None => []
    case Some(ring) => [ring]
  }

  lemma RingsOfTwo(image: seq<byte>, a: nat, b: nat)
    ensures RingsOf(image, [a, b]) == RingList(image, a) + RingList(image, b)
  {
    hide RingAt;
    assert [a, b][..1] == [a] && [a][..0] == [];
    assert RingsOf(image, [a]) == RingsOf(image, []) + RingList(image, a);
  }

  lemma RingsOfFour(image: seq<byte>, a: nat, b: nat, c: nat, d: nat)
    ensures RingsOf(image, [a, b, c, d])
         == RingList(image, a) + RingList(image, b) + RingList(image, c) + RingList(image, d)
  {
    hide RingAt, RingList;
    RingsOfTwo(image, a, b);
    assert [a, b, c, d][..3] == [a, b, c] && [a, b, c][..2] == [a, b];
    LastRing(image, [a, b, c]);
    LastRing(image, [a, b, c, d]);
  }

  lemma LastRing(image: seq<byte>, offsets: seq<nat>)
    requires offsets != []
    ensures RingsOf(image, offsets)
         == RingsOf(image, offsets[..|offsets| - 1]) + RingList(image, offsets[|offsets| - 1])
  {
    hide RingAt;
  }

  lemma Misled(a: u64, b: u64, fine: Option<Found>, coarse: Option<Found>)
    requires Best([Nested(a, b)], MIN_SLOT, fine) && Best([Nested(a, b)], MIN_SLOT * 4, coarse)
    ensures fine.Some? && coarse.Some? && coarse.value.ub.txg == a && fine.value.ub.txg >= b
  {
    hide SlotAt, SlotStart, Nested;
    var ring := Nested(a, b);
    NestedSlots(a, b);
    assert [ring][0] == ring;
    assert fine.Some? ==> Loses([ring], MIN_SLOT, 0, 1, fine.value);
    assert coarse.Some?;
    if coarse.value.slot > 0 { SlotBeyond(ring, MIN_SLOT * 4, coarse.value.slot); }
  }

  lemma NestedSlots(a: u64, b: u64)
    ensures var outer, inner := SlotAt(Nested(a, b), MIN_SLOT * 4, 0), SlotAt(Nested(a, b), MIN_SLOT, 1);
            outer.Some? && outer.value.txg == a && inner.Some? && inner.value.txg == b
  {
    hide Parse, PrintSlot;
    var ring := Nested(a, b);
    PrintedTxg(a);
    PrintedTxg(b);
    AtPrefix(PrintSlot(a), PrintSlot(b), Repeat(0, 2048));
    Reassociate(PrintSlot(a), PrintSlot(b), Repeat(0, 2048));
    SlotIs(ring, 1, PrintSlot(b));
    StartsWith(PrintSlot(a), PrintSlot(b) + Repeat(0, 2048));
    SlotIs(ring, 0, PrintSlot(a));
    CoarseIsFine(ring, 4, 0);
  }

  lemma SlotIs(ring: seq<byte>, s: nat, slot: seq<byte>)
    requires |slot| == MIN_SLOT && At(ring, SlotStart(s, MIN_SLOT), slot)
    ensures SlotAt(ring, MIN_SLOT, s) == Parse(slot)
  {
    hide Parse;
  }

  // ---- where things lie ----------------------------------------------------

  /** An image of at least 1 MiB has four rings of 128 KiB: half a label into each of the
      two labels at its start and the two at its end. */
  lemma FourRings(image: seq<byte>)
    requires |image| >= 0x10_0000
    ensures Rings(image) == [image[0x2_0000..0x4_0000], image[0x6_0000..0x8_0000],
                             image[|image| - 0x6_0000..|image| - 0x4_0000], image[|image| - 0x2_0000..]]
  {
    hide RingAt, RingsOf;
    var n := |image|;
    RingsOfFour(image, 0, 0x4_0000, n - 0x8_0000, n - 0x4_0000);
    RingIs(image, 0);
    RingIs(image, 0x4_0000);
    RingIs(image, n - 0x8_0000);
    RingIs(image, n - 0x4_0000);
    assert image[n - 0x2_0000..n] == image[n - 0x2_0000..];
  }

  lemma RingIs(image: seq<byte>, base: nat)
    requires base + 0x4_0000 <= |image|
    ensures RingAt(image, base) == Some(image[base + 0x2_0000..base + 0x4_0000])
  {
  }

  /** A smaller image has the rings of the two labels at its start, as far as it goes. */
  lemma FrontRings(image: seq<byte>)
    requires 0x6_0000 <= |image| < 0x10_0000
    ensures Rings(image) == [image[0x2_0000..0x4_0000], image[0x6_0000..Min(0x8_0000, |image|)]]
  {
    hide RingsOf;
    RingsOfTwo(image, 0, 0x4_0000);
  }

  /** The magic in either byte order, as it lies in a slot. */
  function Magic(e: Endian): (bytes: seq<byte>)
    ensures |bytes| == 8
  {
    if e.Little? then [0x0c, 0xb1, 0xba, 0, 0, 0, 0, 0] else [0, 0, 0, 0, 0, 0xba, 0xb1, 0x0c]
  }

  lemma LittleMagic()
    ensures LeNat(Magic(Little)) == 0x00ba_b10c
  {
    var m := Magic(Little);
    ZeroValue(m[3..]);
    var one, two := m[1..], m[2..];
    assert one[1..] == two && two[1..] == m[3..];
    assert LeNat(two) == 0xba && LeNat(one) == 0xb1 + 256 * 0xba;
  }

  lemma BigMagic()
    ensures BeNat(Magic(Big)) == 0x00ba_b10c && LeNat(Magic(Big)) != 0x00ba_b10c
  {
    var m := Magic(Big);
    ZeroValue(m[..5]);
    var seven, six := m[..7], m[..6];
    assert seven[..6] == six && six[..5] == m[..5];
    assert BeNat(six) == 0xba && BeNat(seven) == 256 * 0xba + 0xb1;
    BigIsNotLittle(m);
  }

  lemma BigIsNotLittle(m: seq<byte>)
    requires m != [] && m[0] == 0
    ensures LeNat(m) != 0x00ba_b10c
  {
  }

  /** The fields of a slot, in the byte order its magic gives: version, transaction group,
      sum of guids and time at bytes 8 to 40, the root pointer at 40 to 168. */
  lemma SlotLayout(e: Endian, version: u64, txg: u64, guidSum: u64, timestamp: u64, rootbp: seq<byte>, rest: seq<byte>)
    requires |rootbp| == 128
    ensures Parse(Magic(e) + NatBytes(e, version, 8) + NatBytes(e, txg, 8) + NatBytes(e, guidSum, 8)
                  + NatBytes(e, timestamp, 8) + rootbp + rest)
         == Some(Uberblock(e, version, txg, guidSum, timestamp, rootbp))
  {
    hide NatBytes, At, ReadNat, Magic, DetectEndian;
    Pow256Values();
    var a := Magic(e) + NatBytes(e, version, 8);
    var b := a + NatBytes(e, txg, 8);
    var c := b + NatBytes(e, guidSum, 8);
    var d := c + NatBytes(e, timestamp, 8);
    var slot := d + rootbp + rest;
    StartsWith(d + rootbp, rest);
    AtSplit(slot, 0, d, rootbp);
    AtSplit(slot, 0, c, NatBytes(e, timestamp, 8));
    AtSplit(slot, 0, b, NatBytes(e, guidSum, 8));
    AtSplit(slot, 0, a, NatBytes(e, txg, 8));
    AtSplit(slot, 0, Magic(e), NatBytes(e, version, 8));
    AtRead(e, slot, 8, version, 8);
    AtRead(e, slot, 16, txg, 8);
    AtRead(e, slot, 24, guidSum, 8);
    AtRead(e, slot, 32, timestamp, 8);
    SlotMagic(e, slot);
    HeldSlice(slot, 40, rootbp);
  }

  lemma HeldSlice(data: seq<byte>, off: nat, bs: seq<byte>)
    requires At(data, off, bs)
    ensures Slice(data, off, off + |bs|) == Some(bs)
  {
  }

  lemma SlotMagic(e: Endian, slot: seq<byte>)
    requires At(slot, 0, Magic(e))
    ensures DetectEndian(slot) == Some(e)
  {
    hide Magic;
    LittleMagic();
    BigMagic();
    assert slot[0..8] == Magic(e);
  }

  /** A slot with neither form of the magic holds nothing. */
  lemma NoMagicNoUberblock(slot: seq<byte>)
    requires |slot| < 8 || (slot[..8] != Magic(Little) && slot[..8] != Magic(Big))
    ensures Parse(slot) == None
  {
    hide Magic;
    LittleMagic();
    BigMagic();
    if |slot| >= 8 {
      assert slot[0..8] == slot[..8];
      if LeNat(slot[..8]) == 0x00ba_b10c { LeNatInjective(slot[..8], Magic(Little)); }
      if BeNat(slot[..8]) == 0x00ba_b10c { BeNatInjective(slot[..8], Magic(Big)); }
    }
  }

  /** A slot that ends before the root pointer does leaves it zeroed. */
  lemma ShortSlotHasNoRoot(slot: seq<byte>)
    requires |slot| < 168 && Parse(slot).Some?
    ensures Parse(slot).value.rootbp == Repeat<byte>(0, 128)
  {
  }
}
