/** System attribute buffers (core/src/sa.rs): packed attribute values whose order comes
    from a layout and whose sizes come from a registry, or, for variable-length ones,
    from the buffer's own length array. */
module SystemAttributes {
  import opened Bytes

  const SA_MAGIC := 0x2F_505A

  /** The file metadata a decoded buffer surfaces. */
  datatype Field = Mode | Size | Links | Uid | Gid | Gen | Parent | Flags | Atime | Mtime | Ctime | Crtime {
    predicate IsTime() { Atime? || Mtime? || Ctime? || Crtime? }

    function Need(): nat { if IsTime() then 16 else 8 }

    function Default(): seq<u64> { if IsTime() then [0, 0] else [0] }
  }

  /** The order in which an attribute id is compared with the known ones. */
  function Fields(): seq<Field> {
    [Mode, Size, Links, Uid, Gid, Gen, Parent, Flags, Atime, Mtime, Ctime, Crtime]
  }

  /** Registered names: the known ones, and any other spelling. */
  datatype AttrName = Zpl(field: Field) | Other(spelling: seq<byte>)

  datatype SaAttrDesc = SaAttrDesc(id: u16, size: u16, bswap: byte)

  datatype SaRegistry = SaRegistry(entries: seq<(AttrName, SaAttrDesc)>) {
    function ByNameFrom(name: AttrName, i: nat): Option<SaAttrDesc>
      decreases |entries| - i
    {
      if i >= |entries| then None
      else if entries[i].0 == name then Some(entries[i].1)
      else ByNameFrom(name, i + 1)
    }

    function SizeFrom(id: u16, i: nat): Option<u16>
      decreases |entries| - i
    {
      if i >= |entries| then None
      else if entries[i].1.id == id then Some(entries[i].1.size)
      else SizeFrom(id, i + 1)
    }

    /** The first entry of that name decides. */
    function ByName(name: AttrName): Option<SaAttrDesc> { ByNameFrom(name, 0) }

    /** The first entry of that id decides. */
    function SizeOf(id: u16): Option<u16> { SizeFrom(id, 0) }

    function Known(f: Field): Option<u16> {
      match ByName(Zpl(f))
      case None => None
      case Some(d) => Some(d.id)
    }
  }

  datatype SaLayouts = SaLayouts(entries: seq<(u64, seq<u16>)>) {
    function AttrIdsFrom(num: u64, i: nat): Option<seq<u16>>
      decreases |entries| - i
    {
      if i >= |entries| then None
      else if entries[i].0 == num then Some(entries[i].1)
      else AttrIdsFrom(num, i + 1)
    }

    function AttrIds(num: u64): Option<seq<u16>> { AttrIdsFrom(num, 0) }
  }

  // ---- the header ----------------------------------------------------------

  function LayoutNum(sa: seq<byte>): u64 { Le16(sa, 4) % 1024 }

  function HdrSize(sa: seq<byte>): nat { Le16(sa, 4) / 1024 % 64 * 8 }

  function LayoutOf(sa: seq<byte>, layouts: SaLayouts): Option<seq<u16>> {
    if Le32(sa, 0) != SA_MAGIC then None else layouts.AttrIds(LayoutNum(sa))
  }

  // ---- one attribute by name -----------------------------------------------

  /** The size of the next attribute, and how many length words are used up after it. */
  function Footprint(sa: seq<byte>, registry: SaRegistry, id: u16, varIdx: nat): Option<(nat, nat)> {
    match registry.SizeOf(id)
    case None => None
    case Some(registered) =>
      if registered != 0 then Some((registered, varIdx))
      else if 6 + varIdx * 2 + 2 > Min(HdrSize(sa), |sa|) then None
      else Some((Le16(sa, 6 + varIdx * 2), varIdx + 1))
  }

  function Walk(sa: seq<byte>, registry: SaRegistry, ids: seq<u16>, want: u16, varIdx: nat, off: nat)
    : Option<seq<byte>>
  {
    if ids == [] then None
    else
      match Footprint(sa, registry, ids[0], varIdx)
      case None => None
      case Some((size, next)) =>
        if ids[0] == want then Slice(sa, off, off + size)
        else Walk(sa, registry, ids[1..], want, next, off + size)
  }

  function AttrBytes(sa: seq<byte>, registry: SaRegistry, layouts: SaLayouts, name: AttrName): Option<seq<byte>> {
    match LayoutOf(sa, layouts)
    case None => None
    case Some(ids) =>
      match registry.ByName(name)
      case None => None
      case Some(d) => Walk(sa, registry, ids, d.id, 0, HdrSize(sa))
  }

  method SaAttrBytes(sa: seq<byte>, registry: SaRegistry, layouts: SaLayouts, name: AttrName)
    returns (r: Option<seq<byte>>)
    ensures r == AttrBytes(sa, registry, layouts, name)
  {
    hide ReadU16, ReadU32, SaRegistry.ByName, SaRegistry.SizeOf, SaLayouts.AttrIds, HdrSize;
    var layout := LayoutOf(sa, layouts);
    if layout.None? { return None; }
    var ids := layout.value;
    var desc := registry.ByName(name);
    if desc.None? { return None; }
    var want := desc.value.id;
    var varIdx: nat := 0;
    var off: nat := HdrSize(sa);
    var k := 0;
    while k < |ids|
      invariant 0 <= k <= |ids|
      invariant Walk(sa, registry, ids[k..], want, varIdx, off)
             == Walk(sa, registry, ids, want, 0, HdrSize(sa))
    {
      var id := ids[k];
      assert ids[k..][0] == id && ids[k..][1..] == ids[k + 1..];
      var registered := registry.SizeOf(id);
      if registered.None? { return None; }
      var size: nat := registered.value;
      if size == 0 {
        var at := 6 + varIdx * 2;
        if at + 2 > Min(HdrSize(sa), |sa|) { return None; }
        varIdx := varIdx + 1;
        size := Le16(sa, at);
      }
      if id == want { return Slice(sa, off, off + size); }
      off := off + size;
      k := k + 1;
    }
    r := None;
  }

  // ---- known attributes ----------------------------------------------------

  /** Decoded metadata; an attribute that was not met keeps its default. */
  datatype ZplAttrs = ZplAttrs(met: map<Field, seq<u64>>, unknownAttrIds: seq<u16>) {
    function Get(f: Field): seq<u64> { if f in met then met[f] else f.Default() }
  }

  function WordsAt(f: Field, e: Endian, data: seq<byte>, off: nat): seq<u64> {
    if f.IsTime() then [ReadU64(e, data, off), ReadU64(e, data, off + 8)] else [ReadU64(e, data, off)]
  }

  /** The first known attribute with this id whose value fits the size. */
  function TargetFrom(registry: SaRegistry, id: u16, size: nat, i: nat): Option<Field>
    decreases |Fields()| - i
  {
    if i >= |Fields()| then None
    else if registry.Known(Fields()[i]) == Some(id) && size >= Fields()[i].Need() then Some(Fields()[i])
    else TargetFrom(registry, id, size, i + 1)
  }

  function AssignKnown(attrs: ZplAttrs, registry: SaRegistry, id: u16, e: Endian, bonus: seq<byte>, off: nat,
                       size: nat): ZplAttrs
  {
    match TargetFrom(registry, id, size, 0)
    case None => attrs
    case Some(f) => attrs.(met := attrs.met[f := WordsAt(f, e, bonus, off)])
  }

  function DecodeFrom(bonus: seq<byte>, registry: SaRegistry, e: Endian, ids: seq<u16>, off: nat, attrs: ZplAttrs)
    : ZplAttrs
  {
    if ids == [] then attrs
    else
      match registry.SizeOf(ids[0])
      case None => attrs.(unknownAttrIds := attrs.unknownAttrIds + [ids[0]])
      case Some(size) =>
        if size == 0 || off + size > |bonus| then attrs
        else DecodeFrom(bonus, registry, e, ids[1..], off + size,
                        AssignKnown(attrs, registry, ids[0], e, bonus, off, size))
  }

  function Decoded(bonus: seq<byte>, registry: SaRegistry, layouts: SaLayouts, e: Endian): Option<ZplAttrs> {
    match LayoutOf(bonus, layouts)
    case None => None
    case Some(ids) => Some(DecodeFrom(bonus, registry, e, ids, HdrSize(bonus), ZplAttrs(map[], [])))
  }

  method DecodeSaBonus(bonus: seq<byte>, registry: SaRegistry, layouts: SaLayouts, e: Endian)
    returns (r: Option<ZplAttrs>)
    ensures r == Decoded(bonus, registry, layouts, e)
  {
    hide ReadU16, ReadU32, SaRegistry.SizeOf, SaLayouts.AttrIds, HdrSize, AssignKnown;
    var layout := LayoutOf(bonus, layouts);
    if layout.None? { return None; }
    var ids := layout.value;
    var attrs := ZplAttrs(map[], []);
    var off: nat := HdrSize(bonus);
    var k := 0;
    while k < |ids|
      invariant 0 <= k <= |ids|
      invariant DecodeFrom(bonus, registry, e, ids[k..], off, attrs)
             == DecodeFrom(bonus, registry, e, ids, HdrSize(bonus), ZplAttrs(map[], []))
    {
      var id := ids[k];
      assert ids[k..][0] == id && ids[k..][1..] == ids[k + 1..];
      var size := registry.SizeOf(id);
      if size.None? {
        attrs := attrs.(unknownAttrIds := attrs.unknownAttrIds + [id]);
        return Some(attrs);
      }
      if size.value == 0 || off + size.value > |bonus| { return Some(attrs); }
      attrs := AssignKnown(attrs, registry, id, e, bonus, off, size.value);
      off := off + size.value;
      k := k + 1;
    }
    r := Some(attrs);
  }

  // ---- agreement -----------------------------------------------------------

  /** No id is registered for two known attributes. */
  predicate Injective(registry: SaRegistry) {
    forall f, g :: registry.Known(f).Some? && registry.Known(f) == registry.Known(g) ==> f == g
  }

  /** Every attribute before `want` is registered with a fixed size, and `want`'s own fixed
      size holds field `f`. */
  predicate Reaches(registry: SaRegistry, ids: seq<u16>, want: u16, f: Field) {
    ids != [] && registry.SizeOf(ids[0]).Some? && registry.SizeOf(ids[0]).value > 0 &&
    if ids[0] == want then registry.SizeOf(want).value >= f.Need() else Reaches(registry, ids[1..], want, f)
  }

  lemma KnownOnce(registry: SaRegistry, f: Field, g: Field)
    requires Injective(registry) && registry.Known(f).Some? && f != g
    ensures registry.Known(f) != registry.Known(g)
  {
  }

  lemma {:induction false} TargetIs(registry: SaRegistry, f: Field, size: nat, i: nat, k: nat)
    requires Injective(registry) && registry.Known(f).Some? && size >= f.Need()
    requires i <= k < |Fields()| && Fields()[k] == f
    ensures TargetFrom(registry, registry.Known(f).value, size, i) == Some(f)
    decreases k - i
  {
    hide SaRegistry.Known;
    if i < k {
      KnownOnce(registry, f, Fields()[i]);
      TargetIs(registry, f, size, i + 1, k);
    }
  }

  function Rank(f: Field): (k: nat)
    ensures k < |Fields()| && Fields()[k] == f
  {
    match f
    case Mode => 0 case Size => 1 case Links => 2 case Uid => 3 case Gid => 4 case Gen => 5
    case Parent => 6 case Flags => 7 case Atime => 8 case Mtime => 9 case Ctime => 10 case Crtime => 11
  }

  lemma {:induction false} TargetMeets(registry: SaRegistry, id: u16, size: nat, i: nat)
    ensures match TargetFrom(registry, id, size, i)
            case None => true
            case Some(g) => registry.Known(g) == Some(id) && size >= g.Need()
    decreases |Fields()| - i
  {
    hide SaRegistry.Known;
    if i < |Fields()| { TargetMeets(registry, id, size, i + 1); }
  }

  /** A step at another id, or at a value too short for it, leaves field `f` alone. */
  lemma StepKeeps(attrs: ZplAttrs, registry: SaRegistry, id: u16, e: Endian, sa: seq<byte>, off: nat, size: nat,
                  f: Field)
    requires registry.Known(f) != Some(id) || size < f.Need()
    ensures AssignKnown(attrs, registry, id, e, sa, off, size).Get(f) == attrs.Get(f)
  {
    hide WordsAt, SaRegistry.Known;
    TargetMeets(registry, id, size, 0);
  }

  /** Where `f`'s id does not occur, decoding keeps what is there. */
  lemma {:induction false} DecodeKeeps(bonus: seq<byte>, registry: SaRegistry, e: Endian, ids: seq<u16>, off: nat,
                                       attrs: ZplAttrs, f: Field)
    requires forall i :: 0 <= i < |ids| ==> registry.Known(f) != Some(ids[i])
    ensures DecodeFrom(bonus, registry, e, ids, off, attrs).Get(f) == attrs.Get(f)
    decreases |ids|
  {
    hide SaRegistry.Known, WordsAt, TargetFrom, SaRegistry.SizeOf;
    if ids != [] && registry.SizeOf(ids[0]).Some? {
      var size := registry.SizeOf(ids[0]).value;
      StepKeeps(attrs, registry, ids[0], e, bonus, off, size, f);
      DecodeKeeps(bonus, registry, e, ids[1..], off + size,
                  AssignKnown(attrs, registry, ids[0], e, bonus, off, size), f);
    }
  }

  function Words(f: Field, e: Endian, bytes: Option<seq<byte>>): seq<u64> {
    match bytes
    case None => f.Default()
    case Some(bs) => WordsAt(f, e, bs, 0)
  }

  lemma WordsOfSlice(f: Field, e: Endian, data: seq<byte>, off: nat, size: nat)
    requires f.Need() <= size && off + size <= |data|
    ensures WordsAt(f, e, data[off..off + size], 0) == WordsAt(f, e, data, off)
  {
    SameRead(e, data, off, size, 0);
    if f.IsTime() { SameRead(e, data, off, size, 8); }
  }

  lemma SameRead(e: Endian, data: seq<byte>, off: nat, size: nat, k: nat)
    requires k + 8 <= size && off + size <= |data|
    ensures ReadU64(e, data[off..off + size], k) == ReadU64(e, data, off + k)
  {
    SliceOfSlice(data, off, size, k, 8);
  }

  lemma {:induction false} DecodeAgrees(sa: seq<byte>, registry: SaRegistry, e: Endian, ids: seq<u16>, off: nat,
                                        attrs: ZplAttrs, f: Field)
    requires Distinct(ids) && Injective(registry) && registry.Known(f).Some? && attrs.Get(f) == f.Default()
    ensures DecodeFrom(sa, registry, e, ids, off, attrs).Get(f)
         == if Reaches(registry, ids, registry.Known(f).value, f)
            then Words(f, e, Walk(sa, registry, ids, registry.Known(f).value, 0, off))
            else f.Default()
    decreases |ids|
  {
    hide SaRegistry.Known, WordsAt, TargetFrom, SaRegistry.SizeOf, HdrSize, Injective, AssignKnown;
    if ids != [] && registry.SizeOf(ids[0]).Some? {
      var want, size := registry.Known(f).value, registry.SizeOf(ids[0]).value;
      var attrs' := AssignKnown(attrs, registry, ids[0], e, sa, off, size);
      if off + size > |sa| {
        WalkBeyond(sa, registry, ids, want, 0, off);
      } else if ids[0] == want {
        DecodeKeeps(sa, registry, e, ids[1..], off + size, attrs', f);
        StepHere(attrs, registry, e, sa, off, size, f);
      } else {
        StepKeeps(attrs, registry, ids[0], e, sa, off, size, f);
        DecodeAgrees(sa, registry, e, ids[1..], off + size, attrs', f);
      }
    }
  }

  lemma StepHere(attrs: ZplAttrs, registry: SaRegistry, e: Endian, sa: seq<byte>, off: nat, size: nat, f: Field)
    requires Injective(registry) && registry.Known(f).Some? && off + size <= |sa|
    ensures AssignKnown(attrs, registry, registry.Known(f).value, e, sa, off, size).Get(f)
         == if size >= f.Need() then Words(f, e, Some(sa[off..off + size])) else attrs.Get(f)
  {
    hide WordsAt, SaRegistry.Known, TargetFrom, Injective;
    if size >= f.Need() {
      TargetIs(registry, f, size, 0, Rank(f));
      WordsOfSlice(f, e, sa, off, size);
    } else {
      StepKeeps(attrs, registry, registry.Known(f).value, e, sa, off, size, f);
    }
  }

  /** Once an attribute sticks out of the buffer, no later one is inside. */
  lemma {:induction false} WalkBeyond(sa: seq<byte>, registry: SaRegistry, ids: seq<u16>, want: u16, varIdx: nat,
                                      off: nat)
    requires off > |sa| || (ids != [] && registry.SizeOf(ids[0]).Some? && registry.SizeOf(ids[0]).value > 0
                            && off + registry.SizeOf(ids[0]).value > |sa|)
    ensures Walk(sa, registry, ids, want, varIdx, off) == None
    decreases |ids|
  {
    hide SaRegistry.SizeOf, HdrSize;
    if ids != [] && Footprint(sa, registry, ids[0], varIdx).Some? {
      var (size, next) := Footprint(sa, registry, ids[0], varIdx).value;
      WalkBeyond(sa, registry, ids[1..], want, next, off + size);
    }
  }

  /** On every buffer: the metadata decoder reports for a known attribute exactly what the
      by-name walk finds if only registered, fixed-size attributes precede it, and the
      default if it finds nothing or something else comes first. */
  lemma DecodeAgreesWithWalk(sa: seq<byte>, registry: SaRegistry, layouts: SaLayouts, e: Endian, f: Field)
    requires LayoutOf(sa, layouts).Some? && Distinct(LayoutOf(sa, layouts).value) && Injective(registry)
    ensures Decoded(sa, registry, layouts, e).Some?
    ensures Decoded(sa, registry, layouts, e).value.Get(f)
         == match registry.Known(f)
            case None => f.Default()
            case Some(id) =>
              if Reaches(registry, LayoutOf(sa, layouts).value, id, f)
              then Words(f, e, AttrBytes(sa, registry, layouts, Zpl(f))) else f.Default()
  {
    hide DecodeFrom, Walk, WordsAt, Injective, Reaches, Words;
    var ids, start := LayoutOf(sa, layouts).value, ZplAttrs(map[], []);
    if registry.Known(f).Some? {
      DecodeAgrees(sa, registry, e, ids, HdrSize(sa), start, f);
    } else {
      DecodeKeeps(sa, registry, e, ids, HdrSize(sa), start, f);
    }
  }

  // ---- unregistered ids ----------------------------------------------------

  /** The first `n` attributes are registered with a fixed size and fit in `room` bytes. */
  predicate FixedUpTo(registry: SaRegistry, ids: seq<u16>, n: nat, room: int)
    requires n <= |ids|
  {
    n == 0 ||
    (registry.SizeOf(ids[0]).Some? && 0 < registry.SizeOf(ids[0]).value <= room &&
     FixedUpTo(registry, ids[1..], n - 1, room - registry.SizeOf(ids[0]).value))
  }

  lemma {:induction false} FirstUnknown(sa: seq<byte>, registry: SaRegistry, e: Endian, ids: seq<u16>, off: nat,
                                        attrs: ZplAttrs, n: nat)
    requires n <= |ids| && (n < |ids| ==> registry.SizeOf(ids[n]) == None)
    requires forall i :: 0 <= i < n ==> registry.SizeOf(ids[i]).Some?
    ensures DecodeFrom(sa, registry, e, ids, off, attrs).unknownAttrIds
         == attrs.unknownAttrIds + if n < |ids| && FixedUpTo(registry, ids, n, |sa| - off) then [ids[n]] else []
    decreases n
  {
    hide SaRegistry.SizeOf, AssignKnown;
    if n == 0 {
    } else {
      var size := registry.SizeOf(ids[0]).value;
      if 0 < size <= |sa| - off {
        AssignKeepsUnknown(attrs, registry, ids[0], e, sa, off, size);
        FirstUnknown(sa, registry, e, ids[1..], off + size,
                     AssignKnown(attrs, registry, ids[0], e, sa, off, size), n - 1);
      }
    }
  }

  lemma AssignKeepsUnknown(attrs: ZplAttrs, registry: SaRegistry, id: u16, e: Endian, sa: seq<byte>, off: nat,
                           size: nat)
    ensures AssignKnown(attrs, registry, id, e, sa, off, size).unknownAttrIds == attrs.unknownAttrIds
  {
  }

  /** The decoder surfaces at most one unregistered id: the first (`n` is its index, or the
      layout's length if there is none), and only if nothing but registered, fixed-size
      attributes that fit comes before it. */
  lemma OnlyTheFirstUnknownSurfaces(sa: seq<byte>, registry: SaRegistry, layouts: SaLayouts, e: Endian, n: nat)
    requires LayoutOf(sa, layouts).Some? && n <= |LayoutOf(sa, layouts).value|
    requires n < |LayoutOf(sa, layouts).value| ==> registry.SizeOf(LayoutOf(sa, layouts).value[n]) == None
    requires forall i :: 0 <= i < n ==> registry.SizeOf(LayoutOf(sa, layouts).value[i]).Some?
    ensures Decoded(sa, registry, layouts, e).Some?
    ensures var ids := LayoutOf(sa, layouts).value;
      Decoded(sa, registry, layouts, e).value.unknownAttrIds
      == if n < |ids| && FixedUpTo(registry, ids, n, |sa| - HdrSize(sa)) then [ids[n]] else []
  {
    hide DecodeFrom, SaRegistry.SizeOf, HdrSize;
    FirstUnknown(sa, registry, e, LayoutOf(sa, layouts).value, HdrSize(sa), ZplAttrs(map[], []), n);
  }

  // ---- repeated ids --------------------------------------------------------

  /** The next attribute is one the decoder can step over in `room` bytes. */
  predicate Steps(registry: SaRegistry, ids: seq<u16>, room: int) {
    ids != [] && registry.SizeOf(ids[0]).Some? && 0 < registry.SizeOf(ids[0]).value <= room
  }

  /** Where the last occurrence lies that the decoder reaches and takes field `f` from. */
  function LastAt(registry: SaRegistry, ids: seq<u16>, f: Field, room: int, off: nat): Option<nat>
    decreases |ids|
  {
    if !Steps(registry, ids, room) then None
    else
      var size := registry.SizeOf(ids[0]).value;
      match LastAt(registry, ids[1..], f, room - size, off + size)
      case Some(later) => Some(later)
      case None => if TargetFrom(registry, ids[0], size, 0) == Some(f) then Some(off) else None
  }

  lemma {:induction false} DecodeTakesLast(sa: seq<byte>, registry: SaRegistry, e: Endian, ids: seq<u16>, off: nat,
                                           attrs: ZplAttrs, f: Field)
    ensures DecodeFrom(sa, registry, e, ids, off, attrs).Get(f)
         == match LastAt(registry, ids, f, |sa| - off, off)
            case None => attrs.Get(f)
            case Some(last) => WordsAt(f, e, sa, last)
    decreases |ids|
  {
    hide SaRegistry.SizeOf, TargetFrom, WordsAt;
    if Steps(registry, ids, |sa| - off) {
      var size := registry.SizeOf(ids[0]).value;
      DecodeTakesLast(sa, registry, e, ids[1..], off + size,
                      AssignKnown(attrs, registry, ids[0], e, sa, off, size), f);
    }
  }

  /** On every layout and registry, repeated ids included: the decoder reports the last
      occurrence it reaches of those that serve the field, and the default if none does. */
  lemma DecoderReportsLast(sa: seq<byte>, registry: SaRegistry, layouts: SaLayouts, e: Endian, f: Field)
    requires LayoutOf(sa, layouts).Some?
    ensures Decoded(sa, registry, layouts, e).Some?
    ensures Decoded(sa, registry, layouts, e).value.Get(f)
         == match LastAt(registry, LayoutOf(sa, layouts).value, f, |sa| - HdrSize(sa), HdrSize(sa))
            case None => f.Default()
            case Some(last) => WordsAt(f, e, sa, last)
  {
    hide DecodeFrom, HdrSize, WordsAt, LastAt;
    DecodeTakesLast(sa, registry, e, LayoutOf(sa, layouts).value, HdrSize(sa), ZplAttrs(map[], []), f);
  }

  /** Where the walk finds the first occurrence of an id, and how long it is: past fixed-size
      and variable-length attributes alike. */
  function FirstExtent(sa: seq<byte>, registry: SaRegistry, ids: seq<u16>, want: u16, varIdx: nat, off: nat)
    : Option<(nat, nat)>
  {
    if ids == [] then None
    else
      match Footprint(sa, registry, ids[0], varIdx)
      case None => None
      case Some((size, next)) =>
        if ids[0] == want then Some((off, size))
        else FirstExtent(sa, registry, ids[1..], want, next, off + size)
  }

  lemma {:induction false} WalkTakesFirst(sa: seq<byte>, registry: SaRegistry, ids: seq<u16>, want: u16, varIdx: nat,
                                          off: nat)
    ensures Walk(sa, registry, ids, want, varIdx, off)
         == match FirstExtent(sa, registry, ids, want, varIdx, off)
            case None => None
            case Some((start, size)) => Slice(sa, start, start + size)
    decreases |ids|
  {
    hide Footprint, Slice;
    if ids != [] && Footprint(sa, registry, ids[0], varIdx).Some? {
      var (size, next) := Footprint(sa, registry, ids[0], varIdx).value;
      WalkTakesFirst(sa, registry, ids[1..], want, next, off + size);
    }
  }

  /** The words of an attribute at an extent: those it is long enough for, zero for the rest,
      and the default where it is not all there. */
  function FoundAt(f: Field, e: Endian, sa: seq<byte>, extent: Option<(nat, nat)>): seq<u64> {
    match extent
    case None => f.Default()
    case Some((start, size)) =>
      if start + size > |sa| || size < 8 then f.Default()
      else if size < f.Need() then [ReadU64(e, sa, start), 0]
      else WordsAt(f, e, sa, start)
  }

  lemma FoundIsWords(f: Field, e: Endian, sa: seq<byte>, start: nat, size: nat)
    ensures Words(f, e, Slice(sa, start, start + size)) == FoundAt(f, e, sa, Some((start, size)))
  {
    hide ReadU64, WordsAt;
    if start + size <= |sa| {
      if f.Need() <= size {
        WordsOfSlice(f, e, sa, start, size);
      } else {
        ShortWords(f, e, sa[start..start + size]);
        if size >= 8 { SameRead(e, sa, start, size, 0); }
      }
    }
  }

  lemma ShortWords(f: Field, e: Endian, value: seq<byte>)
    requires |value| < f.Need()
    ensures WordsAt(f, e, value, 0) == if |value| < 8 then f.Default() else [ReadU64(e, value, 0), 0]
  {
    hide ReadU64;
    if |value| < 8 { PastEnd(e, value, 0); }
    if f.IsTime() { PastEnd(e, value, 8); }
  }

  lemma PastEnd(e: Endian, data: seq<byte>, off: nat)
    requires off + 8 > |data|
    ensures ReadU64(e, data, off) == 0
  {
  }

  /** By name, on every layout and registry, the first occurrence is found. */
  lemma WalkReportsFirst(sa: seq<byte>, registry: SaRegistry, layouts: SaLayouts, e: Endian, f: Field)
    requires LayoutOf(sa, layouts).Some? && registry.Known(f).Some?
    ensures Words(f, e, AttrBytes(sa, registry, layouts, Zpl(f)))
         == FoundAt(f, e, sa, FirstExtent(sa, registry, LayoutOf(sa, layouts).value, registry.Known(f).value, 0,
                                          HdrSize(sa)))
  {
    hide HdrSize, Walk, FirstExtent, FoundAt, Words, Slice;
    var ids, want := LayoutOf(sa, layouts).value, registry.Known(f).value;
    WalkTakesFirst(sa, registry, ids, want, 0, HdrSize(sa));
    var extent := FirstExtent(sa, registry, ids, want, 0, HdrSize(sa));
    if extent.Some? {
      FoundIsWords(f, e, sa, extent.value.0, extent.value.1);
    } else {
      NothingFound(f, e, sa);
    }
  }

  lemma NothingFound(f: Field, e: Endian, sa: seq<byte>)
    ensures Words(f, e, None) == FoundAt(f, e, sa, None) == f.Default()
  {
  }

  /** So decoder and walk agree on a field, whatever the layout holds, exactly when the last
      occurrence that serves it, or the default if none does, has the words of the first. */
  lemma AgreementExactly(sa: seq<byte>, registry: SaRegistry, layouts: SaLayouts, e: Endian, f: Field)
    requires LayoutOf(sa, layouts).Some? && registry.Known(f).Some?
    ensures Decoded(sa, registry, layouts, e).Some?
    ensures var ids, off := LayoutOf(sa, layouts).value, HdrSize(sa);
      var last := LastAt(registry, ids, f, |sa| - off, off);
      Decoded(sa, registry, layouts, e).value.Get(f) == Words(f, e, AttrBytes(sa, registry, layouts, Zpl(f)))
      <==> (if last.None? then f.Default() else WordsAt(f, e, sa, last.value))
           == FoundAt(f, e, sa, FirstExtent(sa, registry, ids, registry.Known(f).value, 0, off))
  {
    hide Decoded, HdrSize, WordsAt, Words, FirstExtent, LastAt, FoundAt, AttrBytes;
    DecoderReportsLast(sa, registry, layouts, e, f);
    WalkReportsFirst(sa, registry, layouts, e, f);
  }

  // ---- packing -------------------------------------------------------------

  /** One value per id: of the registered size, or of any 16-bit size where that is 0. */
  predicate Fits(registry: SaRegistry, ids: seq<u16>, values: seq<seq<byte>>) {
    |values| == |ids| && forall i :: 0 <= i < |ids| ==> FitsOne(registry, ids[i], values[i])
  }

  predicate FitsOne(registry: SaRegistry, id: u16, value: seq<byte>) {
    registry.SizeOf(id).Some? &&
    (|value| == registry.SizeOf(id).value || (registry.SizeOf(id).value == 0 && |value| < TWO16))
  }

  /** The length words of the variable-length values, in layout order. */
  function Lengths(registry: SaRegistry, ids: seq<u16>, values: seq<seq<byte>>): seq<byte>
    requires Fits(registry, ids, values)
  {
    if ids == [] then []
    else (if registry.SizeOf(ids[0]).value == 0 then LeBytes(|values[0]|, 2) else [])
         + Lengths(registry, ids[1..], values[1..])
  }

  function Packed(values: seq<seq<byte>>): seq<byte> {
    if values == [] then [] else values[0] + Packed(values[1..])
  }

  /** The first value whose id is `want`. */
  function ValueOf(ids: seq<u16>, values: seq<seq<byte>>, want: u16): Option<seq<byte>>
    requires |ids| == |values|
  {
    if ids == [] then None
    else if ids[0] == want then Some(values[0])
    else ValueOf(ids[1..], values[1..], want)
  }

  lemma {:induction false} PackedWalk(sa: seq<byte>, registry: SaRegistry, ids: seq<u16>, values: seq<seq<byte>>,
                                      want: u16, varIdx: nat, off: nat)
    requires Fits(registry, ids, values) && At(sa, off, Packed(values))
    requires At(sa, 6 + varIdx * 2, Lengths(registry, ids, values))
    requires 6 + varIdx * 2 + |Lengths(registry, ids, values)| <= HdrSize(sa) <= |sa|
    ensures Walk(sa, registry, ids, want, varIdx, off) == ValueOf(ids, values, want)
    decreases |ids|
  {
    hide SaRegistry.SizeOf, HdrSize, At, ReadU16, LeBytes;
    if ids == [] {
    } else {
      var word := if registry.SizeOf(ids[0]).value == 0 then LeBytes(|values[0]|, 2) else [];
      AtSplit(sa, off, values[0], Packed(values[1..]));
      AtSplit(sa, 6 + varIdx * 2, word, Lengths(registry, ids[1..], values[1..]));
      if registry.SizeOf(ids[0]).value == 0 {
        ReadsLe16(sa, 6 + varIdx * 2, |values[0]|);
        PackedWalk(sa, registry, ids[1..], values[1..], want, varIdx + 1, off + |values[0]|);
      } else {
        PackedWalk(sa, registry, ids[1..], values[1..], want, varIdx, off + |values[0]|);
      }
      SliceAt(sa, off, values[0]);
    }
  }

  lemma SliceAt(data: seq<byte>, off: nat, bytes: seq<byte>)
    requires At(data, off, bytes)
    ensures Slice(data, off, off + |bytes|) == Some(bytes)
  {
  }

  /** A buffer to pack: layout number, header size in 8-byte units, filler after the length
      words, one value per id, and whatever follows. */
  datatype Buffer = Buffer(num: nat, units: nat, filler: seq<byte>, values: seq<seq<byte>>, after: seq<byte>) {
    predicate Ok(registry: SaRegistry, ids: seq<u16>) {
      num < 1024 && units < 64 && Fits(registry, ids, values) &&
      6 + |Lengths(registry, ids, values)| + |filler| == 8 * units
    }

    function Print(registry: SaRegistry, ids: seq<u16>): seq<byte>
      requires Ok(registry, ids)
    {
      LeBytes(SA_MAGIC, 4) + LeBytes(num + 1024 * units, 2)
      + (Lengths(registry, ids, values) + filler) + (Packed(values) + after)
    }
  }

  lemma HeaderReads(rest: seq<byte>, num: nat, units: nat)
    requires num < 1024 && units < 64
    ensures var sa := LeBytes(SA_MAGIC, 4) + LeBytes(num + 1024 * units, 2) + rest;
            Le32(sa, 0) == SA_MAGIC && LayoutNum(sa) == num && HdrSize(sa) == 8 * units
  {
    hide LeBytes, At, ReadU16, ReadU32;
    var magic, info := LeBytes(SA_MAGIC, 4), LeBytes(num + 1024 * units, 2);
    StartsWith(magic + info, rest);
    AtSplit(magic + info + rest, 0, magic, info);
    ReadsLe32(magic + info + rest, 0, SA_MAGIC);
    ReadsLe16(magic + info + rest, 4, num + 1024 * units);
  }

  /** Looking an attribute up by name in a packed buffer finds its value; a name that is not
      registered, or whose id is not in the layout, finds nothing. */
  lemma PackedAttributesRead(registry: SaRegistry, layouts: SaLayouts, ids: seq<u16>, b: Buffer, name: AttrName)
    requires b.Ok(registry, ids) && layouts.AttrIds(b.num) == Some(ids)
    ensures AttrBytes(b.Print(registry, ids), registry, layouts, name)
         == match registry.ByName(name)
            case None => None
            case Some(d) => ValueOf(ids, b.values, d.id)
  {
    hide Walk, LeBytes, Lengths, Packed, At, SaRegistry.ByName, SaLayouts.AttrIds, LayoutNum, HdrSize, ReadU32, Fits;
    var head := LeBytes(SA_MAGIC, 4) + LeBytes(b.num + 1024 * b.units, 2);
    var lens, body := Lengths(registry, ids, b.values), Packed(b.values);
    var sa := b.Print(registry, ids);
    Reassociate(head, lens + b.filler, body + b.after);
    HeaderReads(lens + b.filler + (body + b.after), b.num, b.units);
    AtPrefix(head, lens + b.filler, body + b.after);
    AtSplit(sa, 6, lens, b.filler);
    AtEnd(head + (lens + b.filler), body + b.after);
    AtSplit(sa, 8 * b.units, body, b.after);
    if registry.ByName(name).Some? {
      PackedWalk(sa, registry, ids, b.values, registry.ByName(name).value.id, 0, 8 * b.units);
    }
  }

  lemma AtEnd(a: seq<byte>, b: seq<byte>)
    ensures At(a + b, |a|, b)
  {
  }

  /** With distinct ids, `ValueOf` is the value packed for the id. */
  lemma {:induction false} ValueOfEach(ids: seq<u16>, values: seq<seq<byte>>, j: nat)
    requires |ids| == |values| && Distinct(ids) && j < |ids|
    ensures ValueOf(ids, values, ids[j]) == Some(values[j])
    decreases j
  {
    if j == 0 {
    } else {
      ValueOfEach(ids[1..], values[1..], j - 1);
    }
  }

  /** Every value packed under distinct ids is found under every name registered for its id. */
  lemma EveryPackedValueIsFound(registry: SaRegistry, layouts: SaLayouts, ids: seq<u16>, b: Buffer, j: nat,
                                name: AttrName)
    requires b.Ok(registry, ids) && layouts.AttrIds(b.num) == Some(ids) && Distinct(ids) && j < |ids|
    requires registry.ByName(name).Some? && registry.ByName(name).value.id == ids[j]
    ensures AttrBytes(b.Print(registry, ids), registry, layouts, name) == Some(b.values[j])
  {
    hide AttrBytes, Buffer.Print, SaRegistry.ByName, SaLayouts.AttrIds, Lengths;
    PackedAttributesRead(registry, layouts, ids, b, name);
    ValueOfEach(ids, b.values, j);
  }

  // ---- a repeated id -------------------------------------------------------

  /** One layout that lists the id of the file size twice. */
  function TwiceLayouts(): SaLayouts { SaLayouts([(0, [5, 5])]) }

  function SizeRegistry(): SaRegistry { SaRegistry([(Zpl(Size), SaAttrDesc(5, 8, 0))]) }

  /** The file size packed twice, as 1 and as 2. */
  function TwiceBuffer(): Buffer { Buffer(0, 1, [0, 0], [LeBytes(1, 8), LeBytes(2, 8)], []) }

  lemma SizeRegistered()
    ensures SizeRegistry().SizeOf(5) == Some(8) && SizeRegistry().ByName(Zpl(Size)) == Some(SaAttrDesc(5, 8, 0))
    ensures TargetFrom(SizeRegistry(), 5, 8, 0) == Some(Size)
  {
    assert SizeRegistry().Known(Mode) == None && SizeRegistry().Known(Size) == Some(5);
    assert TargetFrom(SizeRegistry(), 5, 8, 1) == Some(Size);
  }

  lemma TwiceFits()
    ensures TwiceBuffer().Ok(SizeRegistry(), [5, 5]) && Lengths(SizeRegistry(), [5, 5], TwiceBuffer().values) == []
  {
    hide LeBytes, SaRegistry.SizeOf, SizeRegistry;
    SizeRegistered();
    var ids: seq<u16>, values: seq<seq<byte>> := [5, 5], TwiceBuffer().values;
    var ids1, values1 := ids[1..], values[1..];
    assert Lengths(SizeRegistry(), ids1[1..], values1[1..]) == [];
    assert Lengths(SizeRegistry(), ids1, values1) == [];
  }

  lemma PackedPair(a: seq<byte>, b: seq<byte>)
    ensures Packed([a, b]) == a + b
  {
    var both: seq<seq<byte>> := [a, b];
    var last := both[1..];
    assert last[1..] == [] && b + [] == b;
    assert Packed(last) == b + Packed(last[1..]);
    assert Packed(both) == a + Packed(last);
  }

  lemma TwicePrints()
    requires TwiceBuffer().Ok(SizeRegistry(), [5, 5])
    ensures var sa := TwiceBuffer().Print(SizeRegistry(), [5, 5]);
      |sa| == 24 && LayoutOf(sa, TwiceLayouts()) == Some([5, 5]) && HdrSize(sa) == 8 && Le64(sa, 16) == 2
  {
    TwiceFits();
    hide LeBytes, ReadU16, ReadU32, ReadU64, At, Fits, SizeRegistry, Lengths, HdrSize, LayoutNum, Buffer.Ok;
    var one, two := LeBytes(1, 8), LeBytes(2, 8);
    var head := LeBytes(SA_MAGIC, 4) + LeBytes(1024, 2);
    PackedPair(one, two);
    var sa := TwiceBuffer().Print(SizeRegistry(), [5, 5]);
    assert sa == head + ([] + [0, 0]) + (one + two + []);
    Reassociate(head, [] + [0, 0], one + two + []);
    HeaderReads([] + [0, 0] + (one + two + []), 0, 1);
    assert sa == (head + [0, 0] + one) + two;
    AtEnd(head + [0, 0] + one, two);
    ReadsLe64(sa, 16, 2);
  }

  /** The decoder reports the second value, the by-name walk the first. */
  lemma RepeatedIdDiffers()
    ensures TwiceBuffer().Ok(SizeRegistry(), [5, 5])
    ensures var sa := TwiceBuffer().Print(SizeRegistry(), [5, 5]);
      && AttrBytes(sa, SizeRegistry(), TwiceLayouts(), Zpl(Size)) == Some(LeBytes(1, 8))
      && Decoded(sa, SizeRegistry(), TwiceLayouts(), Little).Some?
      && Decoded(sa, SizeRegistry(), TwiceLayouts(), Little).value.Get(Size) == [2]
  {
    hide LeBytes, ReadU64, At, Fits, SizeRegistry, Lengths, HdrSize, LayoutOf, Buffer.Ok, Buffer.Print, AttrBytes;
    hide Decoded, SaRegistry.SizeOf, SaRegistry.ByName, TargetFrom;
    TwiceFits();
    TwicePrints();
    SizeRegistered();
    var sa := TwiceBuffer().Print(SizeRegistry(), [5, 5]);
    PackedAttributesRead(SizeRegistry(), TwiceLayouts(), [5, 5], TwiceBuffer(), Zpl(Size));
    DecoderReportsLast(sa, SizeRegistry(), TwiceLayouts(), Little, Size);
    TwiceLast();
  }

  lemma TwiceLast()
    ensures LastAt(SizeRegistry(), [5, 5], Size, 16, 8) == Some(16)
  {
    hide SaRegistry.SizeOf, TargetFrom, SizeRegistry;
    SizeRegistered();
    var ids: seq<u16>, last: seq<u16> := [5, 5], [5];
    assert ids[1..] == last && last[1..] == [];
    assert LastAt(SizeRegistry(), last[1..], Size, 0, 24) == None;
    assert LastAt(SizeRegistry(), last, Size, 8, 16) == Some(16);
    assert LastAt(SizeRegistry(), ids, Size, 16, 8) == Some(16);
  }

  // ---- the lists -----------------------------------------------------------

  /** A name's or an id's first entry decides, and a layout number's; none is found exactly
      where there is none. */
  lemma {:induction false} FirstByName(registry: SaRegistry, name: AttrName, i: nat)
    ensures var r := registry.ByNameFrom(name, i); var n := |registry.entries|;
      && (r.None? <==> forall k :: i <= k < n ==> registry.entries[k].0 != name)
      && (r.Some? ==> exists k :: (i <= k < n && registry.entries[k] == (name, r.value)
            && forall j :: i <= j < k ==> registry.entries[j].0 != name))
    decreases |registry.entries| - i
  {
    if i >= |registry.entries| {
    } else {
      if registry.entries[i].0 == name { assert registry.entries[i] == (name, registry.entries[i].1); }
      FirstByName(registry, name, i + 1);
    }
  }

  lemma {:induction false} FirstBySize(registry: SaRegistry, id: u16, i: nat)
    ensures var r := registry.SizeFrom(id, i); var n := |registry.entries|;
      && (r.None? <==> forall k :: i <= k < n ==> registry.entries[k].1.id != id)
      && (r.Some? ==> exists k :: (i <= k < n && registry.entries[k].1.id == id
            && registry.entries[k].1.size == r.value && forall j :: i <= j < k ==> registry.entries[j].1.id != id))
    decreases |registry.entries| - i
  {
    if i >= |registry.entries| {
    } else {
      FirstBySize(registry, id, i + 1);
      if registry.entries[i].1.id == id { assert registry.entries[i].1.size == registry.SizeFrom(id, i).value; }
    }
  }

  lemma {:induction false} FirstLayout(layouts: SaLayouts, num: u64, i: nat)
    ensures var r := layouts.AttrIdsFrom(num, i); var n := |layouts.entries|;
      && (r.None? <==> forall k :: i <= k < n ==> layouts.entries[k].0 != num)
      && (r.Some? ==> exists k :: (i <= k < n && layouts.entries[k] == (num, r.value)
            && forall j :: i <= j < k ==> layouts.entries[j].0 != num))
    decreases |layouts.entries| - i
  {
    if i >= |layouts.entries| {
    } else {
      if layouts.entries[i].0 == num { assert layouts.entries[i] == (num, layouts.entries[i].1); }
      FirstLayout(layouts, num, i + 1);
    }
  }

  /** What the three lookups answer. */
  lemma FirstEntriesDecide(registry: SaRegistry, layouts: SaLayouts, name: AttrName, id: u16, num: u64)
    ensures registry.ByName(name).None? <==> forall k :: 0 <= k < |registry.entries| ==> registry.entries[k].0 != name
    ensures registry.ByName(name).Some? ==>
      exists k :: (0 <= k < |registry.entries| && registry.entries[k] == (name, registry.ByName(name).value)
        && forall j :: 0 <= j < k ==> registry.entries[j].0 != name)
    ensures registry.SizeOf(id).None? <==> forall k :: 0 <= k < |registry.entries| ==> registry.entries[k].1.id != id
    ensures registry.SizeOf(id).Some? ==>
      exists k :: (0 <= k < |registry.entries| && registry.entries[k].1.id == id
        && registry.entries[k].1.size == registry.SizeOf(id).value
        && forall j :: 0 <= j < k ==> registry.entries[j].1.id != id)
    ensures layouts.AttrIds(num).None? <==> forall k :: 0 <= k < |layouts.entries| ==> layouts.entries[k].0 != num
    ensures layouts.AttrIds(num).Some? ==>
      exists k :: (0 <= k < |layouts.entries| && layouts.entries[k] == (num, layouts.AttrIds(num).value)
        && forall j :: 0 <= j < k ==> layouts.entries[j].0 != num)
    ensures forall f :: registry.Known(f).Some? <==> registry.ByName(Zpl(f)).Some?
    ensures forall f :: registry.Known(f).Some? ==> registry.Known(f).value == registry.ByName(Zpl(f)).value.id
  {
    FirstByName(registry, name, 0);
    FirstBySize(registry, id, 0);
    FirstLayout(layouts, num, 0);
  }

  // ---- what the fields say -------------------------------------------------

  /** The header by its bytes: the magic, then ten bits of layout number and six of header
      size in units of eight bytes. */
  lemma HeaderByBytes(sa: seq<byte>, lo: byte, hi: byte, layouts: SaLayouts)
    requires At(sa, 0, [0x5a, 0x50, 0x2f, 0, lo, hi])
    ensures LayoutOf(sa, layouts) == layouts.AttrIds(lo as nat + 256 * (hi as nat % 4))
    ensures HdrSize(sa) == 8 * (hi as nat / 4)
  {
    hide ReadU16, ReadU32, SaLayouts.AttrIds;
    assert sa[0..6] == [0x5a, 0x50, 0x2f, 0, lo, hi];
    LeFour(sa, 0, 0x5a, 0x50, 0x2f, 0);
    LeTwo(sa, 4, lo, hi);
    InfoFields(lo as nat, hi as nat);
  }

  lemma InfoFields(lo: nat, hi: nat)
    requires lo < 256 && hi < 256
    ensures (lo + 256 * hi) % 1024 == lo + 256 * (hi % 4) && (lo + 256 * hi) / 1024 % 64 == hi / 4
  {
  }

  lemma LeTwo(data: seq<byte>, off: nat, a: byte, b: byte)
    requires off + 2 <= |data| && data[off] == a && data[off + 1] == b
    ensures Le16(data, off) == a as nat + 256 * b as nat
  {
    var s := data[off..off + 2];
    var t := s[1..];
    assert t[1..] == [] && s[0] == a && t[0] == b;
    assert LeNat(t) == b as nat && LeNat(s) == a as nat + 256 * LeNat(t);
  }

  lemma LeFour(data: seq<byte>, off: nat, a: byte, b: byte, c: byte, d: byte)
    requires off + 4 <= |data| && data[off] == a && data[off + 1] == b && data[off + 2] == c && data[off + 3] == d
    ensures Le32(data, off) == a as nat + 256 * (b as nat + 256 * (c as nat + 256 * d as nat))
  {
    var s := data[off..off + 4];
    var t, u, v := s[1..], s[2..], s[3..];
    assert s[0] == a && t[0] == b && t[1..] == u && u[0] == c && u[1..] == v && v[0] == d && v[1..] == [];
    assert LeNat(v) == d as nat && LeNat(u) == c as nat + 256 * LeNat(v);
    assert LeNat(t) == b as nat + 256 * LeNat(u) && LeNat(s) == a as nat + 256 * LeNat(t);
  }

  /** Any other first word, or a layout number not listed, decodes to nothing. */
  lemma NotAnAttributeBuffer(sa: seq<byte>, registry: SaRegistry, layouts: SaLayouts, e: Endian, name: AttrName)
    requires Le32(sa, 0) != 0x2f505a || layouts.AttrIds(LayoutNum(sa)) == None
    ensures Decoded(sa, registry, layouts, e) == None && AttrBytes(sa, registry, layouts, name) == None
  {
  }

  /** A variable-length attribute whose length word would lie past the header or the buffer
      ends the by-name walk. */
  lemma NoLengthWord(sa: seq<byte>, registry: SaRegistry, ids: seq<u16>, want: u16, varIdx: nat, off: nat)
    requires ids != [] && registry.SizeOf(ids[0]) == Some(0)
    requires 8 + 2 * varIdx > HdrSize(sa) || 8 + 2 * varIdx > |sa|
    ensures Walk(sa, registry, ids, want, varIdx, off) == None
  {
  }

  /** Which field an id of a given size serves: the first, in the fixed order, that is
      registered under it and fits; times take 16 bytes, the rest 8. */
  lemma {:induction false} TargetExactly(registry: SaRegistry, id: u16, size: nat, f: Field, i: nat)
    requires i <= 12
    ensures TargetFrom(registry, id, size, i) == Some(f)
       <==> i <= Rank(f) && registry.Known(f) == Some(id)
            && size >= (if f in {Atime, Mtime, Ctime, Crtime} then 16 else 8)
            && forall g :: i <= Rank(g) < Rank(f) && registry.Known(g) == Some(id) ==> size < g.Need()
    decreases 12 - i
  {
    hide SaRegistry.Known;
    if i == 12 {
      assert Rank(f) < 12;
    } else {
      TargetExactly(registry, id, size, f, i + 1);
      FieldOfRank(i);
    }
  }

  lemma FieldOfRank(i: nat)
    requires i < 12
    ensures forall g: Field :: Rank(g) == i <==> g == Fields()[i]
  {
  }

  /** A packed field decodes to its numbers: one of eight bytes, or for a time the seconds
      and nanoseconds of sixteen, in the pool's byte order; shorter ones keep the default. */
  lemma PackedFieldDecodes(sa: seq<byte>, registry: SaRegistry, layouts: SaLayouts, e: Endian, f: Field, a: u64,
                           b: u64, start: nat)
    requires LayoutOf(sa, layouts).Some?
    requires LastAt(registry, LayoutOf(sa, layouts).value, f, |sa| - HdrSize(sa), HdrSize(sa)) == Some(start)
    requires At(sa, start, NatBytes(e, a, 8))
    requires f in {Atime, Mtime, Ctime, Crtime} ==> At(sa, start + 8, NatBytes(e, b, 8))
    ensures Decoded(sa, registry, layouts, e).Some?
    ensures Decoded(sa, registry, layouts, e).value.Get(f) == if f in {Atime, Mtime, Ctime, Crtime} then [a, b] else [a]
  {
    hide Decoded, LastAt, HdrSize, LayoutOf, At, NatBytes, ReadNat;
    Pow256Values();
    DecoderReportsLast(sa, registry, layouts, e, f);
    AtRead(e, sa, start, a, 8);
    if f in {Atime, Mtime, Ctime, Crtime} { AtRead(e, sa, start + 8, b, 8); }
  }

  /** What keeps its default: the field of a known attribute that no reached occurrence serves. */
  lemma UnservedKeepsDefault(sa: seq<byte>, registry: SaRegistry, layouts: SaLayouts, e: Endian, f: Field)
    requires LayoutOf(sa, layouts).Some?
    requires LastAt(registry, LayoutOf(sa, layouts).value, f, |sa| - HdrSize(sa), HdrSize(sa)) == None
    ensures Decoded(sa, registry, layouts, e).Some?
    ensures Decoded(sa, registry, layouts, e).value.Get(f)
         == if f in {Atime, Mtime, Ctime, Crtime} then [0, 0] else [0]
  {
    hide Decoded, LastAt, HdrSize, LayoutOf;
    DecoderReportsLast(sa, registry, layouts, e, f);
  }
}
