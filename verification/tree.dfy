/** The indirect block tree of one object: the bit-slicing descent of
    core/src/read.rs (read_dnode_data) against the flat left-to-right array of its
    leaves. A tree is whatever the reader finds; nothing is assumed about it. */
module BlockTree {
  import opened Arithmetic
  import opened Bytes
  import opened BlockPointer
  import opened ReadOne
  import opened DnodePhys

  const MAX_INDIRECT_LEVELS := 8

  /** Reads the block behind a pointer of one image. */
  type Reader = Blkptr -> Result<Block>

  function ImageReader(env: Env, image: seq<byte>): Reader {
    (bp: Blkptr) => ReadBlock(env, image, bp)
  }

  // ---- shifts --------------------------------------------------------------

  /** A 64-bit right shift as release builds perform it: the count is taken modulo 64. */
  function Shr64(x: nat, count: nat): nat {
    QuotientNonneg(x, Power(2, count % 64));
    x / Power(2, count % 64)
  }

  function PtrsPerIndirect(d: Dnode): (p: nat)
    ensures p > 0
  {
    var p := d.IndirectBlockSize() / BLKPTR_SIZE;
    if p == 0 then 1 else p
  }

  /** The source's log2 of the pointers per indirect block. */
  function IndexShift(d: Dnode): nat { TrailingZeros(PtrsPerIndirect(d)) }

  /** The number of pointers in an indirect block is a power of two. */
  lemma PtrsArePow2(d: Dnode)
    ensures IndexShift(d) <= 17 && PtrsPerIndirect(d) == Power(2, IndexShift(d))
  {
    var s := Min(d.indblkshift as int, 24);
    if s >= 7 {
      Pow2Add(s - 7, 7);
      assert Power(2, 7) == 128;
      DivModOf(Power(2, s), 128, Power(2, s - 7), 0);
      TrailingZerosPow2(s - 7);
    } else {
      assert Power(2, s) < 128 by { Pow2AtMost(s, 6); assert Power(2, 6) == 64; }
      TrailingZerosPow2(0);
    }
  }

  lemma {:induction false} Pow2Add(a: nat, b: nat)
    ensures Power(2, a + b) == Power(2, a) * Power(2, b)
  {
    if b == 0 {
    } else {
      Pow2Add(a, b - 1);
    }
  }

  // ---- the descent ---------------------------------------------------------

  /** Index within its parent of the child at level `level` on the way to `blkid`. */
  function ChildIndex(blkid: nat, level: nat, ptrs: nat, shift: nat): (i: nat)
    requires ptrs > 0
    ensures i < ptrs
  {
    Shr64(blkid, level * shift) % ptrs
  }

  function Descend(rd: Reader, e: Endian, ptrs: nat, shift: nat, blkid: nat, bp: Blkptr, level: nat): Result<Block>
    requires ptrs > 0
    decreases level
  {
    if level == 0 then rd(bp)
    else
      match rd(bp)
      case Err(err) => Err(err)
      case Ok(block) =>
        var i := ChildIndex(blkid, level - 1, ptrs, shift);
        match Slice(block.data, i * BLKPTR_SIZE, i * BLKPTR_SIZE + BLKPTR_SIZE)
        case None => Err(OutOfRange(Index.ChildIndex, i, |block.data| / BLKPTR_SIZE))
        case Some(raw) =>
          var child := Parse(raw, e);
          if child.IsHole() then rd(child) else Descend(rd, e, ptrs, shift, blkid, child, level - 1)
  }

  function Levels(d: Dnode): nat { Min(d.nlevels as int, MAX_INDIRECT_LEVELS) }

  function ReadDnodeData(rd: Reader, d: Dnode, blkid: nat): Result<Block> {
    if d.nlevels == 0 then Err(OutOfRange(Nlevels, 0, MAX_INDIRECT_LEVELS))
    else if blkid > d.maxblkid then Err(OutOfRange(Blkid, blkid, d.maxblkid))
    else
      var ptrs := PtrsPerIndirect(d);
      var shift := IndexShift(d);
      var top := Levels(d) - 1;
      var topIndex := Shr64(blkid, top * shift);
      if topIndex >= |d.blkptrs| then Err(OutOfRange(TopIndex, topIndex, |d.blkptrs|))
      else Descend(rd, d.endian, ptrs, shift, blkid, d.blkptrs[topIndex], top)
  }

  /** The source's loop. */
  method ReadDnodeDataAt(env: Env, image: seq<byte>, d: Dnode, blkid: u64) returns (r: Result<Block>)
    ensures r == ReadDnodeData(ImageReader(env, image), d, blkid)
  {
    hide ReadBlock, Parse, PtrsPerIndirect, IndexShift, Shr64;
    if d.nlevels == 0 {
      return Err(OutOfRange(Nlevels, 0, MAX_INDIRECT_LEVELS));
    }
    if blkid > d.maxblkid {
      return Err(OutOfRange(Blkid, blkid, d.maxblkid));
    }
    ghost var rd := ImageReader(env, image);
    var ptrs := PtrsPerIndirect(d);
    var shift := IndexShift(d);
    var level := Levels(d) - 1;
    var topIndex := Shr64(blkid, level * shift);
    if topIndex >= |d.blkptrs| {
      return Err(OutOfRange(TopIndex, topIndex, |d.blkptrs|));
    }
    var bp := d.blkptrs[topIndex];
    while level > 0
      invariant level >= 0
      invariant ReadDnodeData(rd, d, blkid) == Descend(rd, d.endian, ptrs, shift, blkid, bp, level)
    {
      var block := ReadBlockAt(env, image, bp);
      if block.Err? { return block; }
      level := level - 1;
      var i := Shr64(blkid, level * shift) % ptrs;
      var off := i * BLKPTR_SIZE;
      var child := Slice(block.value.data, off, off + BLKPTR_SIZE);
      if child.None? {
        return Err(OutOfRange(Index.ChildIndex, i, |block.value.data| / BLKPTR_SIZE));
      }
      bp := Parse(child.value, d.endian);
      if bp.IsHole() {
        r := ReadBlockAt(env, image, bp);
        return;
      }
    }
    r := ReadBlockAt(env, image, bp);
  }

  // ---- the flat array ------------------------------------------------------

  /** A leaf pointer, or why there is none to be had. */
  type Slot = Result<Blkptr>

  function Concat<T>(xss: seq<seq<T>>): seq<T> {
    if xss == [] then [] else xss[0] + Concat(xss[1..])
  }

  /** The pointers of one indirect block, one slot for each of the `ptrs` positions. */
  function Kids(rd: Reader, e: Endian, ptrs: nat, bp: Blkptr): (kids: seq<Slot>)
    ensures |kids| == ptrs
  {
    match rd(bp)
    case Err(err) => Repeat(Err(err), ptrs)
    case Ok(block) => seq(ptrs, i requires 0 <= i < ptrs => KidAt(block.data, e, i))
  }

  function KidAt(data: seq<byte>, e: Endian, i: nat): Slot {
    if i * BLKPTR_SIZE + BLKPTR_SIZE <= |data|
    then Ok(Parse(data[i * BLKPTR_SIZE..i * BLKPTR_SIZE + BLKPTR_SIZE], e))
    else Err(OutOfRange(Index.ChildIndex, i, |data| / BLKPTR_SIZE))
  }

  /** All leaves below `bp`, left to right; an indirect block is read, hole or not. */
  function Leaves(rd: Reader, e: Endian, ptrs: nat, bp: Blkptr, level: nat): seq<Slot>
    decreases level, 0
  {
    if level == 0 then [Ok(bp)]
    else Concat(BelowEach(rd, e, ptrs, Kids(rd, e, ptrs, bp), level - 1))
  }

  function BelowEach(rd: Reader, e: Endian, ptrs: nat, slots: seq<Slot>, level: nat): (parts: seq<seq<Slot>>)
    ensures |parts| == |slots|
    ensures forall i :: 0 <= i < |slots| ==> parts[i] == Below(rd, e, ptrs, slots[i], level)
    decreases level, 2
  {
    seq(|slots|, i requires 0 <= i < |slots| => Below(rd, e, ptrs, slots[i], level))
  }

  /** The leaves below one slot; a hole or an unreadable slot stands for all of them. */
  function Below(rd: Reader, e: Endian, ptrs: nat, slot: Slot, level: nat): seq<Slot>
    decreases level, 1
  {
    if slot.Err? || slot.value.IsHole() then Repeat(slot, Power(ptrs, level))
    else Leaves(rd, e, ptrs, slot.value, level)
  }

  /** The leaves below several top-level pointers. */
  function FlatOf(rd: Reader, e: Endian, ptrs: nat, tops: seq<Blkptr>, level: nat): seq<Slot> {
    Concat(LeavesOfEach(rd, e, ptrs, tops, level))
  }

  function LeavesOfEach(rd: Reader, e: Endian, ptrs: nat, tops: seq<Blkptr>, level: nat): (parts: seq<seq<Slot>>)
    ensures |parts| == |tops|
    ensures forall i :: 0 <= i < |tops| ==> parts[i] == Leaves(rd, e, ptrs, tops[i], level)
  {
    seq(|tops|, i requires 0 <= i < |tops| => Leaves(rd, e, ptrs, tops[i], level))
  }

  /** The object as one flat array of leaf slots. */
  function Flat(rd: Reader, d: Dnode): seq<Slot>
    requires d.nlevels > 0
  {
    FlatOf(rd, d.endian, PtrsPerIndirect(d), d.blkptrs, Levels(d) - 1)
  }

  /** Element `i` of a concatenation of equally long sequences. */
  lemma {:induction false} ConcatUniform<T>(xss: seq<seq<T>>, m: nat, i: nat)
    requires m > 0 && forall k :: 0 <= k < |xss| ==> |xss[k]| == m
    ensures |Concat(xss)| == |xss| * m
    ensures i < |xss| * m ==> Quot(i, m) < |xss| && Concat(xss)[i] == xss[Quot(i, m)][Rem(i, m)]
    decreases |xss|
  {
    hide Quot, Rem;
    if xss == [] {
    } else {
      ConcatUniform(xss[1..], m, if i >= m then i - m else 0);
      Distribute(m, |xss| - 1, 1);
      QuotStep(i, m);
    }
  }

  lemma QuotStep(i: nat, m: nat)
    requires m > 0
    ensures i < m ==> Quot(i, m) == 0 && Rem(i, m) == i
    ensures i >= m ==> Quot(i, m) == Quot(i - m, m) + 1 && Rem(i, m) == Rem(i - m, m)
  {
    if i < m {
      DivModOf(i, m, 0, i);
    } else {
      ModuloShift(i - m, m);
    }
  }

  lemma {:induction false} LeavesCount(rd: Reader, e: Endian, ptrs: nat, bp: Blkptr, level: nat)
    requires ptrs > 0
    ensures |Leaves(rd, e, ptrs, bp, level)| == Power(ptrs, level)
    decreases level, 0
  {
    hide Kids, Below, Concat, Power;
    if level > 0 {
      PowerStep(ptrs, level);
      BelowEachUniform(rd, e, ptrs, Kids(rd, e, ptrs, bp), level - 1, 0);
    } else {
      PowerZero(ptrs);
    }
  }

  lemma PowerZero(b: nat)
    ensures Power(b, 0) == 1
  {
  }

  lemma {:induction false} BelowCount(rd: Reader, e: Endian, ptrs: nat, slot: Slot, level: nat)
    requires ptrs > 0
    ensures |Below(rd, e, ptrs, slot, level)| == Power(ptrs, level)
    decreases level, 1
  {
    if slot.Ok? && !slot.value.IsHole() {
      LeavesCount(rd, e, ptrs, slot.value, level);
    }
  }

  lemma {:induction false} BelowEachUniform(rd: Reader, e: Endian, ptrs: nat, slots: seq<Slot>, level: nat, i: nat)
    requires ptrs > 0
    ensures var m := Power(ptrs, level); var whole := Concat(BelowEach(rd, e, ptrs, slots, level));
      && |whole| == |slots| * m
      && (i < |whole| ==> (i / m < |slots|
            && |Below(rd, e, ptrs, slots[i / m], level)| == m
            && whole[i] == Below(rd, e, ptrs, slots[i / m], level)[i % m]))
    decreases level, 2
  {
    hide Below, Concat, Kids;
    var m := Power(ptrs, level);
    var parts := BelowEach(rd, e, ptrs, slots, level);
    forall k | 0 <= k < |slots| ensures |parts[k]| == m {
      BelowCount(rd, e, ptrs, slots[k], level);
    }
    ConcatUniform(parts, m, i);
  }

  // ---- the descent reads the flat array ------------------------------------

  function ReadSlot(rd: Reader, slot: Slot): Result<Block> {
    match slot
    case Err(err) => Err(err)
    case Ok(bp) => rd(bp)
  }

  /** Below any pointer, the descent reads the leaf numbered by the low digits. */
  lemma {:induction false} DescendReadsLeaf(
      rd: Reader, e: Endian, ptrs: nat, shift: nat, blkid: nat, bp: Blkptr, level: nat)
    requires ptrs > 0
    requires forall l :: 0 <= l < level ==> ChildIndex(blkid, l, ptrs, shift) == Digit(blkid, l, ptrs)
    ensures |Leaves(rd, e, ptrs, bp, level)| == Power(ptrs, level)
    ensures Descend(rd, e, ptrs, shift, blkid, bp, level)
         == ReadSlot(rd, Leaves(rd, e, ptrs, bp, level)[Rem(blkid, Power(ptrs, level))])
    decreases level
  {
    hide ChildIndex, Power, Kids, Descend, Leaves, Below, ReadSlot, Digit, Rem;
    LeavesCount(rd, e, ptrs, bp, level);
    if level == 0 {
      DescendAtLeaf(rd, e, ptrs, shift, blkid, bp);
    } else {
      var c, j := Digit(blkid, level - 1, ptrs), Rem(blkid, Power(ptrs, level - 1));
      assert ChildIndex(blkid, level - 1, ptrs, shift) == c;
      DigitsOf(blkid, ptrs, level);
      LeafOfChild(rd, e, ptrs, bp, level, Rem(blkid, Power(ptrs, level)), c, j);
      DescendStep(rd, e, ptrs, shift, blkid, bp, level);
      var kid := Kids(rd, e, ptrs, bp)[c];
      BelowStep(rd, e, ptrs, kid, level - 1, j);
      if kid.Ok? && !kid.value.IsHole() {
        DescendReadsLeaf(rd, e, ptrs, shift, blkid, kid.value, level - 1);
      }
    }
  }

  lemma DescendAtLeaf(rd: Reader, e: Endian, ptrs: nat, shift: nat, blkid: nat, bp: Blkptr)
    requires ptrs > 0
    ensures |Leaves(rd, e, ptrs, bp, 0)| == Power(ptrs, 0)
    ensures Descend(rd, e, ptrs, shift, blkid, bp, 0)
         == ReadSlot(rd, Leaves(rd, e, ptrs, bp, 0)[Rem(blkid, Power(ptrs, 0))])
  {
    DivModOf(blkid, 1, blkid, 0);
  }

  /** The digit of weight `ptrs^l` in base `ptrs`. */
  function Digit(x: nat, l: nat, ptrs: nat): (d: nat)
    requires ptrs > 0
    ensures d < ptrs
  {
    Rem(Quot(x, Power(ptrs, l)), ptrs)
  }

  lemma DigitsOf(blkid: nat, ptrs: nat, level: nat)
    requires ptrs > 0 && level > 0
    ensures var i, m := Rem(blkid, Power(ptrs, level)), Power(ptrs, level - 1);
      Quot(i, m) == Digit(blkid, level - 1, ptrs) && Rem(i, m) == Rem(blkid, m)
  {
    LowDigits(blkid, Power(ptrs, level - 1), ptrs);
  }

  /** Leaf `i` is leaf `j` below child `c` when these are its leading digit and the rest. */
  lemma LeafOfChild(rd: Reader, e: Endian, ptrs: nat, bp: Blkptr, level: nat, i: nat, c: nat, j: nat)
    requires ptrs > 0 && level > 0 && i < |Leaves(rd, e, ptrs, bp, level)|
    requires c == Quot(i, Power(ptrs, level - 1)) && j == Rem(i, Power(ptrs, level - 1))
    ensures var kids := Kids(rd, e, ptrs, bp);
      c < |kids| && j < |Below(rd, e, ptrs, kids[c], level - 1)|
      && Leaves(rd, e, ptrs, bp, level)[i] == Below(rd, e, ptrs, kids[c], level - 1)[j]
  {
    hide Leaves, Below, Kids, Power;
    LeavesAt(rd, e, ptrs, bp, level, i);
  }

  lemma LeavesAt(rd: Reader, e: Endian, ptrs: nat, bp: Blkptr, level: nat, i: nat)
    requires ptrs > 0 && level > 0 && i < |Leaves(rd, e, ptrs, bp, level)|
    ensures var m := Power(ptrs, level - 1); var kids := Kids(rd, e, ptrs, bp);
      i / m < |kids| && |Below(rd, e, ptrs, kids[i / m], level - 1)| == m
      && Leaves(rd, e, ptrs, bp, level)[i] == Below(rd, e, ptrs, kids[i / m], level - 1)[i % m]
  {
    hide Kids, Below, Concat;
    BelowEachUniform(rd, e, ptrs, Kids(rd, e, ptrs, bp), level - 1, i);
  }

  lemma BelowStep(rd: Reader, e: Endian, ptrs: nat, slot: Slot, level: nat, j: nat)
    requires ptrs > 0 && j < |Below(rd, e, ptrs, slot, level)|
    ensures if slot.Ok? && !slot.value.IsHole()
            then Below(rd, e, ptrs, slot, level) == Leaves(rd, e, ptrs, slot.value, level)
            else Below(rd, e, ptrs, slot, level)[j] == slot
  {
  }

  /** One turn of the descent, in terms of the slot it selects. */
  lemma DescendStep(rd: Reader, e: Endian, ptrs: nat, shift: nat, blkid: nat, bp: Blkptr, level: nat)
    requires ptrs > 0 && level > 0
    ensures var c := ChildIndex(blkid, level - 1, ptrs, shift);
      var kid := Kids(rd, e, ptrs, bp)[c];
      Descend(rd, e, ptrs, shift, blkid, bp, level) ==
      if kid.Ok? && !kid.value.IsHole() then Descend(rd, e, ptrs, shift, blkid, kid.value, level - 1)
      else ReadSlot(rd, kid)
  {
    hide Parse;
  }

  lemma PowerStep(b: nat, n: nat)
    requires n > 0
    ensures Power(b, n) == b * Power(b, n - 1)
  {
  }

  /** The low digits of a number, split at the last of them. */
  lemma LowDigits(x: nat, m: nat, p: nat)
    requires m > 0 && p > 0
    ensures p * m > 0
    ensures x % (p * m) / m == x / m % p && x % (p * m) % m == x % m
  {
    var q, r := x / m, x % m;
    AtLeast(p, m);
    assert x == q * m + r;
    var d, c := q / p, q % p;
    assert q == d * p + c;
    Distribute(m, d * p, c);
    Associate(d, p, m);
    AtLeast2(p - 1, c, m);
    Distribute(m, p - 1, 1);
    MulNonneg(c, m);
    DivModOf(x, p * m, d, c * m + r);
    DivModOf(c * m + r, m, c, r);
  }

  lemma FlatAt(rd: Reader, e: Endian, ptrs: nat, tops: seq<Blkptr>, level: nat, blkid: nat)
    requires ptrs > 0
    ensures var t, j := Quot(blkid, Power(ptrs, level)), Rem(blkid, Power(ptrs, level));
      && (blkid < |FlatOf(rd, e, ptrs, tops, level)| <==> t < |tops|)
      && (t < |tops| ==>
            j < |Leaves(rd, e, ptrs, tops[t], level)|
            && FlatOf(rd, e, ptrs, tops, level)[blkid] == Leaves(rd, e, ptrs, tops[t], level)[j])
  {
    hide Power, Leaves, Concat;
    var m := Power(ptrs, level);
    var parts := LeavesOfEach(rd, e, ptrs, tops, level);
    forall k | 0 <= k < |tops| ensures |parts[k]| == m {
      LeavesCount(rd, e, ptrs, tops[k], level);
    }
    ConcatUniform(parts, m, blkid);
    QuotientInRange(blkid, m, |parts|);
  }

  lemma QuotientInRange(x: nat, m: nat, n: nat)
    requires m > 0
    ensures x < n * m <==> x / m < n
  {
    assert x == (x / m) * m + x % m;
    if x / m < n {
      AtLeast2(n, x / m + 1, m);
      Distribute(m, x / m, 1);
    } else {
      AtLeast2(x / m, n, m);
    }
  }

  /** The top digit of a block id, which no mask bounds. */
  function TopDigit(d: Dnode, blkid: nat): nat
    requires d.nlevels > 0
  {
    Quot(blkid, Power(PtrsPerIndirect(d), Levels(d) - 1))
  }

  /** For every image, every dnode and every block id: the bit-slicing read is a lookup
      in the flat array, wherever the descent takes the digits of the block id. */
  lemma ReadIsFlatLookup(rd: Reader, d: Dnode, blkid: u64)
    requires d.nlevels > 0 && blkid <= d.maxblkid
    requires ShiftSafe(blkid, IndexShift(d), Levels(d) - 1)
    ensures var flat := Flat(rd, d);
      ReadDnodeData(rd, d, blkid) ==
      if blkid < |flat| then ReadSlot(rd, flat[blkid])
      else Err(OutOfRange(TopIndex, TopDigit(d, blkid), |d.blkptrs|))
  {
    var ptrs, top, shift := PtrsPerIndirect(d), Levels(d) - 1, IndexShift(d);
    PtrsArePow2(d);
    DigitsExactly(blkid, shift, top);
    FlatAt(rd, d.endian, ptrs, d.blkptrs, top, blkid);
    hide PtrsPerIndirect, IndexShift, Power, Shr64, Leaves, Descend, FlatOf, Quot, Rem, Digit, ChildIndex;
    var t := TopDigit(d, blkid);
    if t < |d.blkptrs| {
      DescendReadsLeaf(rd, d.endian, ptrs, shift, blkid, d.blkptrs[t], top);
    }
  }

  function TopShift(d: Dnode): nat
    requires d.nlevels > 0
  {
    MulNonneg(Levels(d) - 1, IndexShift(d));
    (Levels(d) - 1) * IndexShift(d)
  }

  /** Where a shift count reaches 64 the lookup is lost: an object refuses, whatever the
      image holds, block ids that its flat array contains. */
  lemma WrappedShiftRefuses(rd: Reader, d: Dnode, blkid: u64)
    requires d.nlevels > 0 && blkid <= d.maxblkid && d.blkptrs != []
    requires TopShift(d) >= 64 && blkid >= |d.blkptrs| * Power(2, TopShift(d) - 64)
    ensures blkid < |Flat(rd, d)|
    ensures ReadDnodeData(rd, d, blkid) == Err(OutOfRange(TopIndex, Shr64(blkid, TopShift(d)), |d.blkptrs|))
  {
    var ptrs, top, shift := PtrsPerIndirect(d), Levels(d) - 1, IndexShift(d);
    PtrsArePow2(d);
    PowerOfPow2(shift, top);
    FlatAt(rd, d.endian, ptrs, d.blkptrs, top, blkid);
    WrappedTopIndex(blkid, top, shift, |d.blkptrs|);
    hide Power, PtrsPerIndirect, IndexShift, FlatOf, Descend, Shr64, Quot, Levels;
  }

  lemma WrappedTopIndex(blkid: u64, top: nat, shift: nat, n: nat)
    requires top < MAX_INDIRECT_LEVELS && shift <= 17
    requires top * shift >= 64 && blkid >= n * Power(2, top * shift - 64)
    ensures Shr64(blkid, top * shift) >= n && Quot(blkid, Power(2, top * shift)) == 0
  {
    ShiftBound(top, shift);
    Pow2Is64();
    hide Power;
    Pow2AtMost(64, top * shift);
    DivSmall(blkid, Power(2, top * shift));
    QuotientInRange(blkid, Power(2, top * shift - 64), n);
    assert (top * shift) % 64 == top * shift - 64;
  }

  /** The bytes of a dnode with eight levels, 16 MiB indirect blocks and one pointer. */
  function DeepDnode(): (raw: seq<byte>)
    ensures |raw| == DNODE_SIZE
  {
    [19, 24, 8, 1] + Repeat(0, 12) + (LeBytes(TWO64 - 1, 8) + Repeat(0, 488))
  }

  lemma DeepDnodeParses()
    ensures ParseDnode(DeepDnode(), Little).Some?
    ensures var d := ParseDnode(DeepDnode(), Little).value;
      d.nlevels == 8 && d.indblkshift == 24 && |d.blkptrs| == 1 && d.maxblkid == TWO64 - 1
  {
    hide Parse, ReadU64, LeBytes, ReadU16;
    var raw := DeepDnode();
    AtPrefix([19, 24, 8, 1] + Repeat(0, 12), LeBytes(TWO64 - 1, 8), Repeat(0, 488));
    Reassociate([19, 24, 8, 1] + Repeat(0, 12), LeBytes(TWO64 - 1, 8), Repeat(0, 488));
    ReadsLe64(raw, 16, TWO64 - 1);
    assert raw[1] == 24 && raw[2] == 8 && raw[3] == 1 && raw[12] == 0;
    assert BlkptrSlots(raw, Little, 0) == [] && |BlkptrSlots(raw, Little, 1)| == 1;
  }

  /** A dnode that parses and refuses every block id from 2^55 on. */
  lemma ParsedDnodeRefuses(rd: Reader, blkid: u64)
    requires blkid >= Power(2, 55)
    ensures ParseDnode(DeepDnode(), Little).Some?
    ensures var d := ParseDnode(DeepDnode(), Little).value;
      d.nlevels > 0 && blkid < |Flat(rd, d)| && ReadDnodeData(rd, d, blkid).Err?
  {
    hide ParseDnode, DeepDnode, Flat, ReadDnodeData, Power;
    DeepDnodeParses();
    var d := ParseDnode(DeepDnode(), Little).value;
    DeepShift(d);
    WrappedShiftRefuses(rd, d, blkid);
  }

  lemma DeepShift(d: Dnode)
    requires d.nlevels == 8 && d.indblkshift == 24
    ensures TopShift(d) == 119
  {
    Pow2Add(17, 7);
    assert Power(2, 7) == 128;
    hide Power;
    DivModOf(Power(2, 24), 128, Power(2, 17), 0);
    TrailingZerosPow2(17);
  }

  // ---- digits --------------------------------------------------------------

  /** The shifts of the descent are not reduced modulo 64, or their operand is so small
      that it does not matter. */
  predicate ShiftSafe(blkid: nat, shift: nat, top: nat) {
    forall l :: 0 <= l <= top && l * shift >= 64 ==> blkid < Power(2, l * shift - 64)
  }

  /** With `P = 2^shift`, the descent's shifts and masks are the base-P digits of `blkid`. */
  predicate TakesDigits(blkid: nat, shift: nat, top: nat) {
    && Shr64(blkid, top * shift) == Quot(blkid, Power(Power(2, shift), top))
    && forall l :: 0 <= l < top ==> ChildIndex(blkid, l, Power(2, shift), shift) == Digit(blkid, l, Power(2, shift))
  }

  lemma {:induction false} PowerOfPow2(shift: nat, l: nat)
    ensures Power(Power(2, shift), l) == Power(2, l * shift)
  {
    if l == 0 {
    } else {
      PowerOfPow2(shift, l - 1);
      Pow2Add(shift, (l - 1) * shift);
      Distribute(shift, l - 1, 1);
    }
  }

  lemma Pow2Is64()
    ensures Power(2, 64) == TWO64
  {
    assert Power(2, 8) == 256 && Power(2, 16) == 65536;
    Pow2Add(16, 16);
    Pow2Add(32, 32);
  }

  lemma DivSmall(x: nat, m: nat)
    requires m > 0
    ensures x < m <==> x / m == 0
  {
    if x < m { DivModOf(x, m, 0, x); }
    if x / m == 0 { assert x == (x / m) * m + x % m; }
  }

  /** A single shift is right exactly when it is below 64 or its operand is small. */
  lemma ShiftIsQuotient(blkid: nat, count: nat)
    requires blkid < TWO64 && count < 128
    ensures Shr64(blkid, count) == blkid / Power(2, count) <==> (count >= 64 ==> blkid < Power(2, count - 64))
  {
    if count >= 64 {
      Pow2Is64();
      Pow2AtMost(64, count);
      DivSmall(blkid, Power(2, count));
      DivSmall(blkid, Power(2, count - 64));
      assert count % 64 == count - 64;
    } else {
      assert count % 64 == count;
    }
  }

  /** The descent takes exactly the base-P digits of `blkid` if and only if no shift
      count is reduced, or `blkid` is below the first reduced one's window. */
  lemma DigitsExactly(blkid: nat, shift: nat, top: nat)
    requires blkid < TWO64 && shift <= 17 && top < MAX_INDIRECT_LEVELS
    ensures TakesDigits(blkid, shift, top) <==> ShiftSafe(blkid, shift, top)
  {
    hide Power, Shr64;
    forall l | 0 <= l <= top ensures l * shift <= 119 { ShiftBound(l, shift); }
    if ShiftSafe(blkid, shift, top) {
      forall l | 0 <= l <= top
        ensures Shr64(blkid, l * shift) == Quot(blkid, Power(Power(2, shift), l))
      {
        PowerOfPow2(shift, l);
        ShiftIsQuotient(blkid, l * shift);
      }
    }
    if TakesDigits(blkid, shift, top) {
      forall l | 0 <= l <= top && l * shift >= 64
        ensures blkid < Power(2, l * shift - 64)
      {
        SafeFromTop(blkid, shift, top, l);
      }
    }
  }

  lemma ShiftBound(l: nat, shift: nat)
    requires l <= 7 && shift <= 17
    ensures l * shift <= 119
  {
    assert l * shift <= 7 * shift;
  }

  lemma {:induction false} SafeFromTop(blkid: nat, shift: nat, top: nat, l: nat)
    requires blkid < TWO64 && shift <= 17 && l <= top < MAX_INDIRECT_LEVELS && l * shift >= 64
    requires TakesDigits(blkid, shift, top)
    ensures blkid < Power(2, l * shift - 64)
    decreases top - l
  {
    hide Power;
    PowerOfPow2(shift, l);
    ShiftBound(l, shift);
    ShiftIsQuotient(blkid, l * shift);
    Pow2Is64();
    Pow2AtMost(64, l * shift);
    DivSmall(blkid, Power(2, l * shift));
    if l < top {
      // The digit above is already known to be zero, so this one is the whole quotient.
      Distribute(shift, l, 1);
      SafeFromTop(blkid, shift, top, l + 1);
      assert (l + 1) * shift == l * shift + shift;
      Pow2Add(l * shift - 64, shift);
      assert (l * shift) % 64 == l * shift - 64;
      var m, p := Power(2, l * shift - 64), Power(2, shift);
      QuotientBelow(blkid, m, p);
      DivModOf(blkid / m, p, 0, blkid / m);
      assert ChildIndex(blkid, l, p, shift) == Digit(blkid, l, p);
      DivModOf(0, p, 0, 0);
      DivSmall(blkid, m);
    }
  }

  lemma QuotientBelow(x: nat, m: nat, p: nat)
    requires m > 0 && x < m * p
    ensures x / m < p
  {
    assert x == (x / m) * m + x % m;
    if x / m >= p {
      AtLeast2(x / m, p, m);
    }
  }

  lemma AtLeast2(a: nat, b: nat, m: nat)
    requires a >= b
    ensures a * m >= b * m
  {
    MulNonneg(a - b, m);
    assert a * m == (a - b) * m + b * m;
  }

  // ---- refusals ------------------------------------------------------------

  /** Ids past the object's last block, and objects without levels, are refused before the
      tree is looked at; more than eight levels are read as eight. */
  lemma RefusedReads(rd: Reader, d: Dnode, blkid: nat)
    ensures d.nlevels == 0 ==> ReadDnodeData(rd, d, blkid) == Err(OutOfRange(Nlevels, 0, 8))
    ensures d.nlevels > 0 && blkid > d.maxblkid ==>
      ReadDnodeData(rd, d, blkid) == Err(OutOfRange(Blkid, blkid, d.maxblkid))
    ensures d.nlevels > 8 ==> ReadDnodeData(rd, d, blkid) == ReadDnodeData(rd, d.(nlevels := 8), blkid)
  {
    hide Descend;
  }

  /** Pointers per indirect block: two to the dnode's shift, over 128 bytes each, with the
      shift cut at 24 and never less than one pointer. */
  lemma PointersPerBlock(d: Dnode)
    ensures d.indblkshift <= 7 ==> PtrsPerIndirect(d) == 1
    ensures 7 <= d.indblkshift <= 24 ==> PtrsPerIndirect(d) == Power(2, d.indblkshift as int - 7)
    ensures d.indblkshift >= 24 ==> PtrsPerIndirect(d) == 0x2_0000
  {
    assert Power(2, 7) == 128 && Power(2, 6) == 64;
    var s := Min(d.indblkshift as int, 24);
    if s >= 7 {
      Pow2Add(s - 7, 7);
      DivModOf(Power(2, s), 128, Power(2, s - 7), 0);
      assert Power(2, 10) == 1024;
      if s == 24 { Pow2Add(10, 7); }
    } else {
      Pow2AtMost(s, 6);
      DivModOf(Power(2, s), 128, 0, Power(2, s));
    }
  }
}
