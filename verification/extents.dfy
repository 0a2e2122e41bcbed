/** Enumerating an object's addressable leaf pointers level by level
    (core/src/vfs.rs, ZfsFs::l0_blkptrs), under a cap applied at every level, against
    the flat leaf array that block reads look up. */
module Extents {
  import opened Arithmetic
  import opened Bytes
  import opened BlockPointer
  import opened ReadOne
  import opened DnodePhys
  import opened BlockTree

  const MAX_RUNS := 65_536

  // ---- level order ---------------------------------------------------------

  function NonHoles(bps: seq<Blkptr>): (r: seq<Blkptr>)
    ensures |r| <= |bps|
  {
    if bps == [] then []
    else (if bps[0].IsHole() then [] else [bps[0]]) + NonHoles(bps[1..])
  }

  /** The whole 128-byte pointers of an indirect block, in the given byte order. */
  function Pointers(data: seq<byte>, e: Endian): (r: seq<Blkptr>)
    ensures |r| == |data| / BLKPTR_SIZE
  {
    seq(|data| / BLKPTR_SIZE, i requires 0 <= i < |data| / BLKPTR_SIZE =>
      Parse(data[i * BLKPTR_SIZE..i * BLKPTR_SIZE + BLKPTR_SIZE], e))
  }

  /** What one indirect pointer contributes; an unreadable one contributes nothing. */
  function ChildrenOf(rd: Reader, bp: Blkptr): seq<Blkptr> {
    match rd(bp)
    case Err(_) => []
    case Ok(block) => NonHoles(Pointers(block.data, bp.byteorder))
  }

  function NextLevel(rd: Reader, level: seq<Blkptr>): seq<Blkptr> {
    if level == [] then [] else ChildrenOf(rd, level[0]) + NextLevel(rd, level[1..])
  }

  /** The pointers `n` levels down, without any cap. */
  function LevelOrder(rd: Reader, level: seq<Blkptr>, n: nat): seq<Blkptr>
    decreases n
  {
    if n == 0 then level else LevelOrder(rd, NextLevel(rd, level), n - 1)
  }

  /** The source's walk: every level is cut off at the cap before the next is read. */
  function CappedOrder(rd: Reader, level: seq<Blkptr>, n: nat): seq<Blkptr>
    decreases n
  {
    if n == 0 then level else CappedOrder(rd, Take(NextLevel(rd, level), MAX_RUNS), n - 1)
  }

  predicate Addressable(bp: Blkptr) { !bp.embedded && !bp.dvas[0].IsEmpty() }

  function Keep(bps: seq<Blkptr>): (r: seq<Blkptr>)
    ensures |r| <= |bps|
  {
    if bps == [] then []
    else (if Addressable(bps[0]) then [bps[0]] else []) + Keep(bps[1..])
  }

  /** How many times the source's loop descends. */
  function Descents(d: Dnode): nat { if d.nlevels == 0 then 0 else Levels(d) - 1 }

  function L0(rd: Reader, d: Dnode): seq<Blkptr> {
    Keep(CappedOrder(rd, Take(NonHoles(d.blkptrs), MAX_RUNS), Descents(d)))
  }

  /** The enumeration if there were no cap. */
  function UncappedL0(rd: Reader, d: Dnode): seq<Blkptr> {
    Keep(LevelOrder(rd, NonHoles(d.blkptrs), Descents(d)))
  }

  // ---- the source's loops --------------------------------------------------

  lemma {:induction false} NonHolesConcat(a: seq<Blkptr>, b: seq<Blkptr>)
    ensures NonHoles(a + b) == NonHoles(a) + NonHoles(b)
    decreases |a|
  {
    if a == [] {
      assert a + b == b;
    } else {
      SplitHead(a, b);
      NonHolesConcat(a[1..], b);
    }
  }

  lemma {:induction false} NextLevelConcat(rd: Reader, a: seq<Blkptr>, b: seq<Blkptr>)
    ensures NextLevel(rd, a + b) == NextLevel(rd, a) + NextLevel(rd, b)
    decreases |a|
  {
    hide ChildrenOf;
    if a == [] {
      assert a + b == b;
    } else {
      SplitHead(a, b);
      NextLevelConcat(rd, a[1..], b);
      Reassociate(ChildrenOf(rd, a[0]), NextLevel(rd, a[1..]), NextLevel(rd, b));
    }
  }

  lemma {:induction false} KeepConcat(a: seq<Blkptr>, b: seq<Blkptr>)
    ensures Keep(a + b) == Keep(a) + Keep(b)
    decreases |a|
  {
    hide Addressable;
    if a == [] {
      assert a + b == b;
    } else {
      SplitHead(a, b);
      KeepConcat(a[1..], b);
      Reassociate(if Addressable(a[0]) then [a[0]] else [], Keep(a[1..]), Keep(b));
    }
  }

  /** Cutting off at a cap early does not change what is kept. */
  lemma TakeAgain<T>(a: seq<T>, b: seq<T>, n: nat)
    ensures Take(Take(a, n) + b, n) == Take(a + b, n)
    ensures |Take(a, n)| >= n ==> Take(a + b, n) == Take(a, n)
    ensures |a| <= n ==> Take(a, n) == a
  {
  }

  /** Filters the pointers of one block into the next level until the cap is reached. */
  method PushChildren(data: seq<byte>, e: Endian, before: seq<Blkptr>) returns (next: seq<Blkptr>)
    requires |before| <= MAX_RUNS
    ensures next == Take(before + NonHoles(Pointers(data, e)), MAX_RUNS)
  {
    hide Parse, Take;
    next := before;
    ghost var all := Pointers(data, e);
    assert before + NonHoles(all[..0]) == before;
    TakeAgain(before, [], MAX_RUNS);
    for i := 0 to |data| / BLKPTR_SIZE
      invariant next == Take(before + NonHoles(all[..i]), MAX_RUNS)
    {
      if |next| >= MAX_RUNS {
        SplitNonHoles(all, i);
        Reassociate(before, NonHoles(all[..i]), NonHoles(all[i..]));
        TakeAgain(before + NonHoles(all[..i]), NonHoles(all[i..]), MAX_RUNS);
        return;
      }
      var child := Parse(data[i * BLKPTR_SIZE..i * BLKPTR_SIZE + BLKPTR_SIZE], e);
      NextNonHole(all, i);
      Reassociate(before, NonHoles(all[..i]), [child]);
      TakeAgain(before + NonHoles(all[..i]), [child], MAX_RUNS);
      if !child.IsHole() {
        next := next + [child];
        TakeAgain(next, [], MAX_RUNS);
      }
    }
    assert all[..|all|] == all;
  }

  lemma SplitNonHoles(bps: seq<Blkptr>, i: nat)
    requires i <= |bps|
    ensures NonHoles(bps) == NonHoles(bps[..i]) + NonHoles(bps[i..])
  {
    assert bps == bps[..i] + bps[i..];
    NonHolesConcat(bps[..i], bps[i..]);
  }

  lemma NextNonHole(bps: seq<Blkptr>, i: nat)
    requires i < |bps|
    ensures NonHoles(bps[..i + 1]) == NonHoles(bps[..i]) + if bps[i].IsHole() then [] else [bps[i]]
  {
    assert bps[..i + 1] == bps[..i] + [bps[i]];
    NonHolesConcat(bps[..i], [bps[i]]);
  }

  lemma NextLevelOfOne(rd: Reader, bp: Blkptr)
    ensures NextLevel(rd, [bp]) == ChildrenOf(rd, bp)
  {
    hide ChildrenOf;
    assert [bp][1..] == [] && ChildrenOf(rd, bp) + [] == ChildrenOf(rd, bp);
  }

  lemma SplitNextLevel(rd: Reader, level: seq<Blkptr>, i: nat)
    requires i < |level|
    ensures NextLevel(rd, level) == NextLevel(rd, level[..i]) + NextLevel(rd, level[i..])
    ensures NextLevel(rd, level[..i + 1]) == NextLevel(rd, level[..i]) + ChildrenOf(rd, level[i])
  {
    hide ChildrenOf, NextLevel;
    SplitAt(level, i);
    NextLevelConcat(rd, level[..i], level[i..]);
    NextLevelConcat(rd, level[..i], [level[i]]);
    NextLevelOfOne(rd, level[i]);
  }

  /** One level of the walk. */
  method PushLevel(env: Env, image: seq<byte>, level: seq<Blkptr>) returns (next: seq<Blkptr>)
    ensures next == Take(NextLevel(ImageReader(env, image), level), MAX_RUNS)
  {
    hide ReadBlock, Pointers, NonHoles, Take;
    ghost var rd := ImageReader(env, image);
    next := [];
    assert NextLevel(rd, level[..0]) == [];
    TakeAgain<Blkptr>([], [], MAX_RUNS);
    for i := 0 to |level|
      invariant next == Take(NextLevel(rd, level[..i]), MAX_RUNS)
    {
      SplitNextLevel(rd, level, i);
      if |next| >= MAX_RUNS {
        TakeAgain(NextLevel(rd, level[..i]), NextLevel(rd, level[i..]), MAX_RUNS);
        return;
      }
      var block := ReadBlockAt(env, image, level[i]);
      if block.Err? {
        assert ChildrenOf(rd, level[i]) == [];
        assert NextLevel(rd, level[..i]) + [] == NextLevel(rd, level[..i]);
        continue;
      }
      TakeAgain(NextLevel(rd, level[..i]), ChildrenOf(rd, level[i]), MAX_RUNS);
      next := PushChildren(block.value.data, level[i].byteorder, next);
    }
    assert level[..|level|] == level;
  }

  method Retain(bps: seq<Blkptr>) returns (kept: seq<Blkptr>)
    ensures kept == Keep(bps)
  {
    kept := [];
    for i := 0 to |bps|
      invariant kept == Keep(bps[..i])
    {
      assert bps[..i + 1] == bps[..i] + [bps[i]];
      KeepConcat(bps[..i], [bps[i]]);
      if Addressable(bps[i]) {
        kept := kept + [bps[i]];
      }
    }
    assert bps[..|bps|] == bps;
  }

  lemma {:induction false} CappedOrderOfNone(rd: Reader, n: nat)
    ensures CappedOrder(rd, [], n) == []
  {
    if n == 0 {
    } else {
      CappedOrderOfNone(rd, n - 1);
    }
  }

  /** The source's method: rebuild the level until the data level or nothing is left. */
  method L0Blkptrs(env: Env, image: seq<byte>, d: Dnode) returns (r: seq<Blkptr>)
    ensures r == L0(ImageReader(env, image), d)
  {
    hide NextLevel, NonHoles, Take;
    ghost var rd := ImageReader(env, image);
    var level := Take(NonHoles(d.blkptrs), MAX_RUNS);
    var remaining := Levels(d);
    assert Descents(d) == if remaining > 0 then remaining - 1 else 0;
    while remaining > 1 && level != []
      invariant CappedOrder(rd, Take(NonHoles(d.blkptrs), MAX_RUNS), Descents(d))
             == CappedOrder(rd, level, if remaining > 0 then remaining - 1 else 0)
    {
      remaining := remaining - 1;
      level := PushLevel(env, image, level);
    }
    CappedOrderOfNone(rd, if remaining > 0 then remaining - 1 else 0);
    r := Retain(level);
  }

  // ---- the cap -------------------------------------------------------------

  lemma NextLevelMonotone(rd: Reader, a: seq<Blkptr>, b: seq<Blkptr>)
    requires a <= b
    ensures NextLevel(rd, a) <= NextLevel(rd, b)
  {
    assert b == a + b[|a|..];
    NextLevelConcat(rd, a, b[|a|..]);
  }

  lemma {:induction false} CappedIsPrefix(rd: Reader, a: seq<Blkptr>, b: seq<Blkptr>, n: nat)
    requires a <= b && |a| <= MAX_RUNS
    ensures CappedOrder(rd, a, n) <= LevelOrder(rd, b, n)
    ensures |CappedOrder(rd, a, n)| <= MAX_RUNS
    decreases n
  {
    hide NextLevel;
    if n == 0 {
    } else {
      NextLevelMonotone(rd, a, b);
      CappedIsPrefix(rd, Take(NextLevel(rd, a), MAX_RUNS), NextLevel(rd, b), n - 1);
    }
  }

  lemma KeepMonotone(a: seq<Blkptr>, b: seq<Blkptr>)
    requires a <= b
    ensures Keep(a) <= Keep(b)
  {
    assert b == a + b[|a|..];
    KeepConcat(a, b[|a|..]);
  }

  /** On every tree, readable or not, capping each level yields a prefix of what no cap
      would yield, and never more than the cap. */
  lemma CapYieldsPrefix(rd: Reader, d: Dnode)
    ensures L0(rd, d) <= UncappedL0(rd, d) && |L0(rd, d)| <= 65_536
  {
    hide LevelOrder, CappedOrder, NonHoles;
    var tops := NonHoles(d.blkptrs);
    CappedIsPrefix(rd, Take(tops, MAX_RUNS), tops, Descents(d));
    KeepMonotone(CappedOrder(rd, Take(tops, MAX_RUNS), Descents(d)), LevelOrder(rd, tops, Descents(d)));
  }

  /** A longer level is cut after exactly that many. */
  lemma CapIsReached(rd: Reader, level: seq<Blkptr>)
    requires |NextLevel(rd, level)| >= 65_536
    ensures CappedOrder(rd, level, 1) == NextLevel(rd, level)[..65_536]
  {
    hide NextLevel;
    var next := NextLevel(rd, level);
    assert CappedOrder(rd, Take(next, MAX_RUNS), 0) == Take(next, MAX_RUNS);
  }

  /** No level is longer than the cap. */
  predicate WithinCap(rd: Reader, level: seq<Blkptr>, n: nat)
    decreases n
  {
    |level| <= MAX_RUNS && (n > 0 ==> WithinCap(rd, NextLevel(rd, level), n - 1))
  }

  lemma {:induction false} WithinCapIsWhole(rd: Reader, level: seq<Blkptr>, n: nat)
    requires WithinCap(rd, level, n)
    ensures CappedOrder(rd, level, n) == LevelOrder(rd, level, n)
    decreases n
  {
    if n == 0 {
    } else {
      WithinCapIsWhole(rd, NextLevel(rd, level), n - 1);
      assert Take(NextLevel(rd, level), MAX_RUNS) == NextLevel(rd, level);
    }
  }

  // ---- the flat array ------------------------------------------------------

  /** The pointers among some slots that name data: no failures and no holes. */
  function Live(slots: seq<Slot>): seq<Blkptr> {
    if slots == [] then []
    else (if slots[0].Ok? && !slots[0].value.IsHole() then [slots[0].value] else []) + Live(slots[1..])
  }

  lemma {:induction false} LiveConcat(a: seq<Slot>, b: seq<Slot>)
    ensures Live(a + b) == Live(a) + Live(b)
    decreases |a|
  {
    if a == [] {
      assert a + b == b;
    } else {
      SplitHead(a, b);
      LiveConcat(a[1..], b);
    }
  }

  lemma {:induction false} LiveOfDead(slots: seq<Slot>)
    requires forall i :: 0 <= i < |slots| ==> slots[i].Err? || slots[i].value.IsHole()
    ensures Live(slots) == []
  {
    if slots == [] {
    } else {
      LiveOfDead(slots[1..]);
    }
  }

  lemma {:induction false} LiveOfPointers(slots: seq<Slot>, bps: seq<Blkptr>)
    requires |slots| == |bps| && forall i :: 0 <= i < |slots| ==> slots[i] == Ok(bps[i])
    ensures Live(slots) == NonHoles(bps)
  {
    if slots == [] {
    } else {
      LiveOfPointers(slots[1..], bps[1..]);
    }
  }

  lemma {:induction false} LevelOrderConcat(rd: Reader, a: seq<Blkptr>, b: seq<Blkptr>, n: nat)
    ensures LevelOrder(rd, a + b, n) == LevelOrder(rd, a, n) + LevelOrder(rd, b, n)
    decreases n
  {
    hide NextLevel;
    if n == 0 {
    } else {
      NextLevelConcat(rd, a, b);
      LevelOrderConcat(rd, NextLevel(rd, a), NextLevel(rd, b), n - 1);
    }
  }

  lemma {:induction false} LevelOrderOfNone(rd: Reader, n: nat)
    ensures LevelOrder(rd, [], n) == []
  {
    if n == 0 {
    } else {
      LevelOrderOfNone(rd, n - 1);
    }
  }

  lemma BelowEachHead(rd: Reader, e: Endian, ptrs: nat, slots: seq<Slot>, level: nat)
    requires slots != []
    ensures Concat(BelowEach(rd, e, ptrs, slots, level))
         == Below(rd, e, ptrs, slots[0], level) + Concat(BelowEach(rd, e, ptrs, slots[1..], level))
  {
    hide Below;
    assert BelowEach(rd, e, ptrs, slots, level)[1..] == BelowEach(rd, e, ptrs, slots[1..], level);
  }

  // ---- top-level holes -----------------------------------------------------

  /** Holes read as zeros, as `read_block` promises. */
  ghost predicate HolesReadZero(rd: Reader) {
    forall bp: Blkptr :: bp.IsHole() && rd(bp).Ok? ==> AllZero(rd(bp).value.data)
  }

  lemma ImageHolesReadZero(env: Env, image: seq<byte>)
    ensures HolesReadZero(ImageReader(env, image))
  {
  }

  /** The descent reads a top-level hole and finds only holes and failures below it. */
  lemma LeavesOfHole(rd: Reader, e: Endian, ptrs: nat, bp: Blkptr, level: nat)
    requires ptrs > 0 && HolesReadZero(rd) && bp.IsHole()
    ensures Live(Leaves(rd, e, ptrs, bp, level)) == []
  {
    if level > 0 {
      var kids := Kids(rd, e, ptrs, bp);
      forall i | 0 <= i < |kids| ensures kids[i].Err? || kids[i].value.IsHole() {
        if rd(bp).Ok? && i * BLKPTR_SIZE + BLKPTR_SIZE <= |rd(bp).value.data| {
          ParseZeros(rd(bp).value.data[i * BLKPTR_SIZE..i * BLKPTR_SIZE + BLKPTR_SIZE], e);
        }
      }
      DeadSlots(rd, e, ptrs, kids, level - 1);
    }
  }

  lemma {:induction false} DeadSlots(rd: Reader, e: Endian, ptrs: nat, slots: seq<Slot>, level: nat)
    requires ptrs > 0
    requires forall i :: 0 <= i < |slots| ==> slots[i].Err? || slots[i].value.IsHole()
    ensures Live(Concat(BelowEach(rd, e, ptrs, slots, level))) == []
    decreases |slots|
  {
    if slots == [] {
    } else {
      DeadSlots(rd, e, ptrs, slots[1..], level);
      BelowEachHead(rd, e, ptrs, slots, level);
      LiveOfDead(Below(rd, e, ptrs, slots[0], level));
      LiveConcat(Below(rd, e, ptrs, slots[0], level), Concat(BelowEach(rd, e, ptrs, slots[1..], level)));
    }
  }

  // ---- what the two walks list ---------------------------------------------

  /** A tree in one byte order: the indirect pointers that block ids lead through carry the
      dnode's. Blocks may be unreadable, short or long, and holes may stand anywhere. */
  predicate OneOrder(rd: Reader, e: Endian, ptrs: nat, bp: Blkptr, level: nat)
    decreases level, 0
  {
    level > 0 ==> bp.byteorder == e && SlotsOneOrder(rd, e, ptrs, Kids(rd, e, ptrs, bp), level - 1)
  }

  predicate SlotsOneOrder(rd: Reader, e: Endian, ptrs: nat, slots: seq<Slot>, level: nat)
    decreases level, 1
  {
    forall i :: 0 <= i < |slots| && slots[i].Ok? && !slots[i].value.IsHole() ==>
      OneOrder(rd, e, ptrs, slots[i].value, level)
  }

  /** The pointers of an indirect block past the `ptrs`-th, which no block id leads through. */
  function Beyond(rd: Reader, ptrs: nat, bp: Blkptr): seq<Blkptr> {
    match rd(bp)
    case Err(_) => []
    case Ok(block) =>
      var all := Pointers(block.data, bp.byteorder);
      NonHoles(all[Min(ptrs, |all|)..])
  }

  function Sift(keep: Blkptr -> bool, bps: seq<Blkptr>): (r: seq<Blkptr>)
    ensures |r| <= |bps|
  {
    if bps == [] then []
    else (if keep(bps[0]) then [bps[0]] else []) + Sift(keep, bps[1..])
  }

  /** The leaves of interest that lie below such pointers, at any depth under `bp`. */
  function Stray(rd: Reader, e: Endian, ptrs: nat, keep: Blkptr -> bool, bp: Blkptr, level: nat): seq<Blkptr>
    decreases level, 0, 0
  {
    if level == 0 then []
    else StrayEach(rd, e, ptrs, keep, Live(Kids(rd, e, ptrs, bp)), level - 1)
         + Sift(keep, LevelOrder(rd, Beyond(rd, ptrs, bp), level - 1))
  }

  function StrayEach(rd: Reader, e: Endian, ptrs: nat, keep: Blkptr -> bool, bps: seq<Blkptr>, level: nat)
    : seq<Blkptr>
    decreases level, 1, |bps|
  {
    if bps == [] then []
    else Stray(rd, e, ptrs, keep, bps[0], level) + StrayEach(rd, e, ptrs, keep, bps[1..], level)
  }

  /** `listed` is `flat` and `stray` together, and no more than `flat` if nothing is stray. */
  ghost predicate Accounts(listed: seq<Blkptr>, flat: seq<Blkptr>, stray: seq<Blkptr>) {
    multiset(listed) == multiset(flat) + multiset(stray) && (stray == [] ==> listed == flat)
  }

  lemma AccountsAppend(l1: seq<Blkptr>, f1: seq<Blkptr>, s1: seq<Blkptr>, l2: seq<Blkptr>, f2: seq<Blkptr>,
                       s2: seq<Blkptr>)
    requires Accounts(l1, f1, s1) && Accounts(l2, f2, s2)
    ensures Accounts(l1 + l2, f1 + f2, s1 + s2)
  {
  }

  /** The lists are equal exactly when nothing is stray. */
  lemma AccountsExactly(listed: seq<Blkptr>, flat: seq<Blkptr>, stray: seq<Blkptr>)
    requires Accounts(listed, flat, stray)
    ensures listed == flat <==> stray == []
  {
    assert |multiset(listed)| == |multiset(flat)| + |multiset(stray)|;
  }

  lemma {:induction false} SiftConcat(keep: Blkptr -> bool, a: seq<Blkptr>, b: seq<Blkptr>)
    ensures Sift(keep, a + b) == Sift(keep, a) + Sift(keep, b)
    decreases |a|
  {
    if a == [] {
      assert a + b == b;
    } else {
      SplitHead(a, b);
      SiftConcat(keep, a[1..], b);
      Reassociate(if keep(a[0]) then [a[0]] else [], Sift(keep, a[1..]), Sift(keep, b));
    }
  }

  /** An indirect block's pointers: those block ids lead through, and those beyond. */
  lemma ChildrenSplit(rd: Reader, e: Endian, ptrs: nat, bp: Blkptr)
    requires bp.byteorder == e
    ensures ChildrenOf(rd, bp) == Live(Kids(rd, e, ptrs, bp)) + Beyond(rd, ptrs, bp)
  {
    hide Parse, Live, NonHoles;
    var kids := Kids(rd, e, ptrs, bp);
    if rd(bp).Err? {
      LiveOfDead(kids);
    } else {
      var all := Pointers(rd(bp).value.data, e);
      var n := Min(ptrs, |all|);
      assert kids == kids[..n] + kids[n..];
      LiveConcat(kids[..n], kids[n..]);
      LiveOfDead(kids[n..]);
      LiveOfPointers(kids[..n], all[..n]);
      assert all == all[..n] + all[n..];
      NonHolesConcat(all[..n], all[n..]);
      assert NonHoles(all[..n]) + [] == NonHoles(all[..n]);
    }
  }

  /** Level by level and left to right meet: below one pointer, and for any choice of leaves
      of interest, the first lists what the second does and the stray leaves. */
  lemma {:induction false} LevelOrderIsLive(
      rd: Reader, e: Endian, ptrs: nat, keep: Blkptr -> bool, bp: Blkptr, level: nat)
    requires ptrs > 0 && !bp.IsHole() && OneOrder(rd, e, ptrs, bp, level)
    ensures Accounts(Sift(keep, LevelOrder(rd, [bp], level)), Sift(keep, Live(Leaves(rd, e, ptrs, bp, level))),
                     Stray(rd, e, ptrs, keep, bp, level))
    decreases level, 0
  {
    hide Kids, ChildrenOf, BelowEach, Concat, Accounts, Sift, Live, Beyond, SlotsOneOrder, NextLevel;
    if level == 0 {
      OneLive(keep, bp);
    } else {
      var kids, more := Kids(rd, e, ptrs, bp), Beyond(rd, ptrs, bp);
      ChildrenSplit(rd, e, ptrs, bp);
      NextLevelOfOne(rd, bp);
      LevelOrderConcat(rd, Live(kids), more, level - 1);
      SiftConcat(keep, LevelOrder(rd, Live(kids), level - 1), LevelOrder(rd, more, level - 1));
      LevelOrderOfSlots(rd, e, ptrs, keep, kids, level - 1);
      OnlyStray(Sift(keep, LevelOrder(rd, more, level - 1)));
      var flat := Sift(keep, Live(Concat(BelowEach(rd, e, ptrs, kids, level - 1))));
      AccountsAppend(Sift(keep, LevelOrder(rd, Live(kids), level - 1)), flat,
                     StrayEach(rd, e, ptrs, keep, Live(kids), level - 1),
                     Sift(keep, LevelOrder(rd, more, level - 1)), [], Sift(keep, LevelOrder(rd, more, level - 1)));
      assert flat + [] == flat;
    }
  }

  lemma OneLive(keep: Blkptr -> bool, bp: Blkptr)
    requires !bp.IsHole()
    ensures Live([Ok(bp)]) == [bp] && Accounts(Sift(keep, [bp]), Sift(keep, [bp]), [])
  {
    assert [Ok(bp)][1..] == [];
  }

  lemma OnlyStray(bps: seq<Blkptr>)
    ensures Accounts(bps, [], bps) && Accounts([], [], [])
  {
  }

  lemma {:induction false} LevelOrderOfSlots(
      rd: Reader, e: Endian, ptrs: nat, keep: Blkptr -> bool, slots: seq<Slot>, level: nat)
    requires ptrs > 0 && SlotsOneOrder(rd, e, ptrs, slots, level)
    ensures Accounts(Sift(keep, LevelOrder(rd, Live(slots), level)),
                     Sift(keep, Live(Concat(BelowEach(rd, e, ptrs, slots, level)))),
                     StrayEach(rd, e, ptrs, keep, Live(slots), level))
    decreases level, 1, |slots|
  {
    hide LevelOrder, BelowEach, Below, Concat, OneOrder, SlotsOneOrder, Live, Accounts, Sift, Stray, Leaves;
    if slots == [] {
      NoSlots(rd, e, ptrs, keep, slots, level);
    } else {
      SlotsTail(rd, e, ptrs, slots, level);
      LiveHead(slots);
      BelowEachHead(rd, e, ptrs, slots, level);
      var head, rest := Below(rd, e, ptrs, slots[0], level), Concat(BelowEach(rd, e, ptrs, slots[1..], level));
      LiveConcat(head, rest);
      SiftConcat(keep, Live(head), Live(rest));
      LevelOrderOfSlots(rd, e, ptrs, keep, slots[1..], level);
      if slots[0].Ok? && !slots[0].value.IsHole() {
        var bp := slots[0].value;
        LevelOrderIsLive(rd, e, ptrs, keep, bp, level);
        BelowLive(rd, e, ptrs, bp, level);
        LevelOrderConcat(rd, [bp], Live(slots[1..]), level);
        SiftConcat(keep, LevelOrder(rd, [bp], level), LevelOrder(rd, Live(slots[1..]), level));
        AccountsAppend(Sift(keep, LevelOrder(rd, [bp], level)), Sift(keep, Live(head)),
                       Stray(rd, e, ptrs, keep, bp, level),
                       Sift(keep, LevelOrder(rd, Live(slots[1..]), level)), Sift(keep, Live(rest)),
                       StrayEach(rd, e, ptrs, keep, Live(slots[1..]), level));
      } else {
        BelowDead(rd, e, ptrs, slots[0], level);
        NothingSifted(keep);
        assert [] + Sift(keep, Live(rest)) == Sift(keep, Live(rest));
      }
    }
  }

  lemma LiveHead(slots: seq<Slot>)
    requires slots != []
    ensures Live(slots) == if slots[0].Ok? && !slots[0].value.IsHole() then [slots[0].value] + Live(slots[1..])
                           else Live(slots[1..])
  {
  }

  lemma NothingSifted(keep: Blkptr -> bool)
    ensures Sift(keep, []) == []
  {
  }

  lemma BelowLive(rd: Reader, e: Endian, ptrs: nat, bp: Blkptr, level: nat)
    requires !bp.IsHole()
    ensures Below(rd, e, ptrs, Ok(bp), level) == Leaves(rd, e, ptrs, bp, level)
  {
    hide Leaves;
  }

  lemma BelowDead(rd: Reader, e: Endian, ptrs: nat, slot: Slot, level: nat)
    requires slot.Err? || slot.value.IsHole()
    ensures Live(Below(rd, e, ptrs, slot, level)) == []
  {
    hide Leaves;
    LiveOfDead(Below(rd, e, ptrs, slot, level));
  }

  lemma NoSlots(rd: Reader, e: Endian, ptrs: nat, keep: Blkptr -> bool, slots: seq<Slot>, level: nat)
    requires slots == []
    ensures Accounts(Sift(keep, LevelOrder(rd, Live(slots), level)),
                     Sift(keep, Live(Concat(BelowEach(rd, e, ptrs, slots, level)))),
                     StrayEach(rd, e, ptrs, keep, Live(slots), level))
  {
    LevelOrderOfNone(rd, level);
  }

  lemma SlotsTail(rd: Reader, e: Endian, ptrs: nat, slots: seq<Slot>, level: nat)
    requires slots != [] && SlotsOneOrder(rd, e, ptrs, slots, level)
    ensures SlotsOneOrder(rd, e, ptrs, slots[1..], level)
    ensures slots[0].Ok? && !slots[0].value.IsHole() ==> OneOrder(rd, e, ptrs, slots[0].value, level)
  {
    hide OneOrder;
    forall i | 0 <= i < |slots[1..]| && slots[1..][i].Ok? && !slots[1..][i].value.IsHole()
      ensures OneOrder(rd, e, ptrs, slots[1..][i].value, level)
    {
      assert slots[1..][i] == slots[i + 1];
    }
  }

  lemma {:induction false} LevelOrderOfTops(
      rd: Reader, e: Endian, ptrs: nat, keep: Blkptr -> bool, tops: seq<Blkptr>, level: nat)
    requires ptrs > 0 && HolesReadZero(rd)
    requires forall i :: 0 <= i < |tops| && !tops[i].IsHole() ==> OneOrder(rd, e, ptrs, tops[i], level)
    ensures Accounts(Sift(keep, LevelOrder(rd, NonHoles(tops), level)),
                     Sift(keep, Live(FlatOf(rd, e, ptrs, tops, level))),
                     StrayEach(rd, e, ptrs, keep, NonHoles(tops), level))
    decreases |tops|
  {
    hide HolesReadZero, OneOrder, Leaves, LevelOrder, Live, Accounts, Sift, Stray, FlatOf, NonHoles;
    if tops == [] {
      NoTops(rd, e, ptrs, keep, tops, level);
    } else {
      var bp, after := tops[0], tops[1..];
      var head, rest := Leaves(rd, e, ptrs, bp, level), FlatOf(rd, e, ptrs, after, level);
      FlatHead(rd, e, ptrs, tops, level);
      LiveConcat(head, rest);
      SiftConcat(keep, Live(head), Live(rest));
      LevelOrderOfTops(rd, e, ptrs, keep, after, level);
      if bp.IsHole() {
        LeavesOfHole(rd, e, ptrs, bp, level);
        NothingSifted(keep);
        assert [] + Sift(keep, Live(rest)) == Sift(keep, Live(rest));
      } else {
        LevelOrderIsLive(rd, e, ptrs, keep, bp, level);
        LevelOrderConcat(rd, [bp], NonHoles(after), level);
        SiftConcat(keep, LevelOrder(rd, [bp], level), LevelOrder(rd, NonHoles(after), level));
        AccountsAppend(Sift(keep, LevelOrder(rd, [bp], level)), Sift(keep, Live(head)),
                       Stray(rd, e, ptrs, keep, bp, level),
                       Sift(keep, LevelOrder(rd, NonHoles(after), level)), Sift(keep, Live(rest)),
                       StrayEach(rd, e, ptrs, keep, NonHoles(after), level));
      }
    }
  }

  lemma NoTops(rd: Reader, e: Endian, ptrs: nat, keep: Blkptr -> bool, tops: seq<Blkptr>, level: nat)
    requires tops == []
    ensures Accounts(Sift(keep, LevelOrder(rd, NonHoles(tops), level)),
                     Sift(keep, Live(FlatOf(rd, e, ptrs, tops, level))),
                     StrayEach(rd, e, ptrs, keep, NonHoles(tops), level))
  {
    LevelOrderOfNone(rd, level);
  }

  lemma FlatHead(rd: Reader, e: Endian, ptrs: nat, tops: seq<Blkptr>, level: nat)
    requires tops != []
    ensures FlatOf(rd, e, ptrs, tops, level)
         == Leaves(rd, e, ptrs, tops[0], level) + FlatOf(rd, e, ptrs, tops[1..], level)
    ensures NonHoles(tops) == if tops[0].IsHole() then NonHoles(tops[1..]) else [tops[0]] + NonHoles(tops[1..])
  {
    hide Leaves;
    assert LeavesOfEach(rd, e, ptrs, tops, level)[1..] == LeavesOfEach(rd, e, ptrs, tops[1..], level);
  }

  // ---- the enumeration against the flat array ------------------------------

  lemma {:induction false} KeepIsSift(bps: seq<Blkptr>)
    ensures Keep(bps) == Sift(Addressable, bps)
  {
    hide Addressable;
    if bps == [] {
    } else {
      KeepIsSift(bps[1..]);
    }
  }

  /** The addressable leaves of an object that lie below a pointer past the count its dnode
      gives for an indirect block. */
  function StrayLeaves(rd: Reader, d: Dnode): seq<Blkptr>
    requires d.nlevels > 0
  {
    StrayEach(rd, d.endian, PtrsPerIndirect(d), Addressable, NonHoles(d.blkptrs), Levels(d) - 1)
  }

  /** Indirect pointers carry the dnode's byte order. */
  predicate InOneOrder(rd: Reader, d: Dnode)
    requires d.nlevels > 0
  {
    forall i :: 0 <= i < |d.blkptrs| && !d.blkptrs[i].IsHole() ==>
      OneOrder(rd, d.endian, PtrsPerIndirect(d), d.blkptrs[i], Levels(d) - 1)
  }

  /** On a tree in one byte order, and below the cap: the enumeration lists the flat array,
      without failures, holes and unaddressable pointers, and the stray leaves; and it is
      that array, in increasing block id order, if and only if there are no stray leaves. */
  lemma L0IsFlat(rd: Reader, d: Dnode)
    requires d.nlevels > 0 && HolesReadZero(rd) && InOneOrder(rd, d)
    requires WithinCap(rd, NonHoles(d.blkptrs), Levels(d) - 1)
    ensures multiset(L0(rd, d)) == multiset(Keep(Live(Flat(rd, d)))) + multiset(StrayLeaves(rd, d))
    ensures L0(rd, d) == Keep(Live(Flat(rd, d))) <==> StrayLeaves(rd, d) == []
  {
    hide HolesReadZero, OneOrder, LevelOrder, FlatOf, NonHoles, CappedOrder, PtrsPerIndirect, StrayEach;
    hide Keep, Sift, Live;
    var tops, ptrs, level := NonHoles(d.blkptrs), PtrsPerIndirect(d), Levels(d) - 1;
    LevelOrderOfTops(rd, d.endian, ptrs, Addressable, d.blkptrs, level);
    WithinCapIsWhole(rd, tops, level);
    assert |tops| <= MAX_RUNS && Take(tops, MAX_RUNS) == tops;
    KeepIsSift(LevelOrder(rd, tops, level));
    KeepIsSift(Live(Flat(rd, d)));
    AccountsExactly(L0(rd, d), Keep(Live(Flat(rd, d))), StrayLeaves(rd, d));
  }

  /** No readable indirect block holds more pointers than the dnode says. */
  predicate NoLongBlocks(rd: Reader, e: Endian, ptrs: nat, bp: Blkptr, level: nat)
    decreases level, 0
  {
    level > 0 ==>
      && (rd(bp).Ok? ==> |rd(bp).value.data| / BLKPTR_SIZE <= ptrs)
      && SlotsNoLongBlocks(rd, e, ptrs, Kids(rd, e, ptrs, bp), level - 1)
  }

  predicate SlotsNoLongBlocks(rd: Reader, e: Endian, ptrs: nat, slots: seq<Slot>, level: nat)
    decreases level, 1
  {
    forall i :: 0 <= i < |slots| && slots[i].Ok? && !slots[i].value.IsHole() ==>
      NoLongBlocks(rd, e, ptrs, slots[i].value, level)
  }

  lemma NothingBeyond(rd: Reader, ptrs: nat, bp: Blkptr)
    requires rd(bp).Ok? ==> |rd(bp).value.data| / BLKPTR_SIZE <= ptrs
    ensures Beyond(rd, ptrs, bp) == []
  {
  }

  /** Where no indirect block is longer than the dnode says, nothing is stray. */
  lemma {:induction false} NothingStray(
      rd: Reader, e: Endian, ptrs: nat, keep: Blkptr -> bool, bp: Blkptr, level: nat)
    requires NoLongBlocks(rd, e, ptrs, bp, level)
    ensures Stray(rd, e, ptrs, keep, bp, level) == []
    decreases level, 0
  {
    hide SlotsNoLongBlocks, StrayEach, Kids, Live, Keep, NextLevel;
    if level == 0 {
    } else {
      NothingBeyond(rd, ptrs, bp);
      LevelOrderOfNone(rd, level - 1);
      NothingStrayEach(rd, e, ptrs, keep, Kids(rd, e, ptrs, bp), level - 1);
    }
  }

  lemma {:induction false} NothingStrayEach(
      rd: Reader, e: Endian, ptrs: nat, keep: Blkptr -> bool, slots: seq<Slot>, level: nat)
    requires SlotsNoLongBlocks(rd, e, ptrs, slots, level)
    ensures StrayEach(rd, e, ptrs, keep, Live(slots), level) == []
    decreases level, 1, |slots|
  {
    hide NoLongBlocks, Stray;
    if slots == [] {
    } else {
      if slots[0].Ok? && !slots[0].value.IsHole() {
        NothingStray(rd, e, ptrs, keep, slots[0].value, level);
      }
      assert forall i :: 0 <= i < |slots[1..]| ==> slots[1..][i] == slots[i + 1];
      NothingStrayEach(rd, e, ptrs, keep, slots[1..], level);
      LiveHead(slots);
    }
  }

  /** Then the enumeration is the flat array. */
  lemma NoStrayLeaves(rd: Reader, d: Dnode)
    requires d.nlevels > 0
    requires forall i :: 0 <= i < |d.blkptrs| && !d.blkptrs[i].IsHole() ==>
      NoLongBlocks(rd, d.endian, PtrsPerIndirect(d), d.blkptrs[i], Levels(d) - 1)
    ensures StrayLeaves(rd, d) == []
  {
    hide NoLongBlocks, PtrsPerIndirect, StrayEach, Live;
    var slots: seq<Slot> := seq(|d.blkptrs|, i requires 0 <= i < |d.blkptrs| => Ok(d.blkptrs[i]));
    LiveOfPointers(slots, d.blkptrs);
    NothingStrayEach(rd, d.endian, PtrsPerIndirect(d), Addressable, slots, Levels(d) - 1);
  }

  // ---- which leaves are listed ---------------------------------------------

  /** A pointer whose data lies at its first copy's place on disk. */
  predicate OnFirstCopy(bp: Blkptr) {
    !bp.embedded &&
    (bp.dvas[0].vdev != 0 || bp.dvas[0].asizeSectors != 0 || bp.dvas[0].offsetSectors != 0)
  }

  lemma {:induction false} KeepIsWritten(bps: seq<Blkptr>)
    ensures Keep(bps) == Sift((bp: Blkptr) => OnFirstCopy(bp), bps)
    ensures forall i :: 0 <= i < |Keep(bps)| ==> OnFirstCopy(Keep(bps)[i])
  {
    if bps == [] {
    } else {
      KeepIsWritten(bps[1..]);
    }
  }

  /** On every tree, whatever its byte orders and lengths: no embedded pointer and none with
      an empty first copy is listed. */
  lemma ListedIsOnDisk(rd: Reader, d: Dnode, i: nat)
    requires i < |L0(rd, d)|
    ensures !L0(rd, d)[i].embedded
    ensures var dva := L0(rd, d)[i].dvas[0]; dva.vdev != 0 || dva.asizeSectors != 0 || dva.offsetSectors != 0
  {
    hide CappedOrder, NonHoles, Keep;
    KeepIsWritten(CappedOrder(rd, Take(NonHoles(d.blkptrs), MAX_RUNS), Descents(d)));
  }

  /** And where nothing is stray, all others of the flat array are, in block id order. */
  lemma ListedExactly(rd: Reader, d: Dnode)
    requires d.nlevels > 0 && HolesReadZero(rd) && InOneOrder(rd, d) && StrayLeaves(rd, d) == []
    requires WithinCap(rd, NonHoles(d.blkptrs), Levels(d) - 1)
    ensures L0(rd, d) == Sift((bp: Blkptr) => !bp.embedded && (bp.dvas[0].vdev != 0 || bp.dvas[0].asizeSectors != 0
                                                               || bp.dvas[0].offsetSectors != 0),
                              Live(Flat(rd, d)))
  {
    hide L0, StrayLeaves, Flat, Live, HolesReadZero, InOneOrder, WithinCap, Keep;
    L0IsFlat(rd, d);
    KeepIsWritten(Live(Flat(rd, d)));
    SiftSame((bp: Blkptr) => OnFirstCopy(bp),
             (bp: Blkptr) => !bp.embedded && (bp.dvas[0].vdev != 0 || bp.dvas[0].asizeSectors != 0
                                              || bp.dvas[0].offsetSectors != 0),
             Live(Flat(rd, d)));
  }

  lemma {:induction false} SiftSame(p: Blkptr -> bool, q: Blkptr -> bool, bps: seq<Blkptr>)
    requires forall bp: Blkptr :: p(bp) == q(bp)
    ensures Sift(p, bps) == Sift(q, bps)
    decreases |bps|
  {
    if bps == [] {
    } else {
      SiftSame(p, q, bps[1..]);
    }
  }

  /** The flat array's live leaves are its entries that were found and are no holes. */
  lemma {:induction false} LiveIs(slots: seq<Slot>, bp: Blkptr)
    ensures bp in Live(slots) <==> !bp.IsHole() && Ok(bp) in slots
  {
    if slots == [] {
    } else {
      LiveIs(slots[1..], bp);
    }
  }
}
