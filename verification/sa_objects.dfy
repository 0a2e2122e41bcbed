/** The registry and layouts of system attributes, read from their ZAP objects
    (core/src/sa.rs, parse_sa_registry and parse_sa_layouts), and the writer they invert. */
module SaObjects {
  import opened Arithmetic
  import opened Bytes
  import opened Zap
  import opened ZapStore
  import opened SystemAttributes

  // ---- names ---------------------------------------------------------------

  /** The registered spelling of a known attribute, in ASCII. */
  function Spelling(f: Field): seq<byte> {
    [90, 80, 76, 95] +
    match f
    case Mode => [77, 79, 68, 69]
    case Size => [83, 73, 90, 69]
    case Links => [76, 73, 78, 75, 83]
    case Uid => [85, 73, 68]
    case Gid => [71, 73, 68]
    case Gen => [71, 69, 78]
    case Parent => [80, 65, 82, 69, 78, 84]
    case Flags => [70, 76, 65, 71, 83]
    case Atime => [65, 84, 73, 77, 69]
    case Mtime => [77, 84, 73, 77, 69]
    case Ctime => [67, 84, 73, 77, 69]
    case Crtime => [67, 82, 84, 73, 77, 69]
  }

  function NameFrom(bytes: seq<byte>, i: nat): AttrName
    decreases |Fields()| - i
  {
    if i >= |Fields()| then Other(bytes)
    else if bytes == Spelling(Fields()[i]) then Zpl(Fields()[i])
    else NameFrom(bytes, i + 1)
  }

  function NameOf(bytes: seq<byte>): AttrName { NameFrom(bytes, 0) }

  function SpellingOf(n: AttrName): seq<byte> {
    match n
    case Zpl(f) => Spelling(f)
    case Other(spelling) => spelling
  }

  /** A name that is not a known attribute's does not spell one. */
  predicate Proper(n: AttrName) { n.Other? ==> forall f :: n.spelling != Spelling(f) }

  /** Length and two letters tell the spellings apart. */
  function Key(f: Field): (nat, nat, nat) {
    match f
    case Mode => (8, 77, 79)
    case Size => (8, 83, 73)
    case Links => (9, 76, 73)
    case Uid => (7, 85, 73)
    case Gid => (7, 71, 73)
    case Gen => (7, 71, 69)
    case Parent => (10, 80, 65)
    case Flags => (9, 70, 76)
    case Atime => (9, 65, 84)
    case Mtime => (9, 77, 84)
    case Ctime => (9, 67, 84)
    case Crtime => (10, 67, 82)
  }

  lemma SpellingKey(f: Field)
    ensures |Spelling(f)| >= 7 && Key(f) == (|Spelling(f)|, Spelling(f)[4] as nat, Spelling(f)[5] as nat)
  {
  }

  lemma SpellingsDiffer(f: Field, g: Field)
    requires f != g
    ensures Spelling(f) != Spelling(g)
  {
    hide Spelling;
    SpellingKey(f);
    SpellingKey(g);
  }

  lemma {:induction false} KnownNameFrom(f: Field, i: nat)
    requires i <= Rank(f)
    ensures NameFrom(Spelling(f), i) == Zpl(f)
    decreases Rank(f) - i
  {
    hide Spelling;
    if i == Rank(f) {
    } else {
      RankOf(Fields()[i], i);
      SpellingsDiffer(f, Fields()[i]);
      KnownNameFrom(f, i + 1);
    }
  }

  lemma RankOf(f: Field, i: nat)
    requires i < |Fields()| && f == Fields()[i]
    ensures Rank(f) == i
  {
  }

  lemma {:induction false} OtherNameFrom(spelling: seq<byte>, i: nat)
    requires forall f :: spelling != Spelling(f)
    ensures NameFrom(spelling, i) == Other(spelling)
    decreases |Fields()| - i
  {
    hide Spelling;
    if i >= |Fields()| {
    } else {
      OtherNameFrom(spelling, i + 1);
    }
  }

  lemma NameRoundTrip(n: AttrName)
    requires Proper(n)
    ensures NameOf(SpellingOf(n)) == n
  {
    match n
    case Zpl(f) => KnownNameFrom(f, 0);
    case Other(spelling) => OtherNameFrom(spelling, 0);
  }

  // ---- the registry --------------------------------------------------------

  /** A registry value: length, byteswap class and id, from the high bits down. */
  function Desc(v: u64): SaAttrDesc { SaAttrDesc(v % 0x1_0000, v / 0x100_0000 % 0x1_0000, v / 0x1_0000 % 256) }

  function PackDesc(d: SaAttrDesc): u64 { d.id + 0x1_0000 * d.bswap as int + 0x100_0000 * d.size }

  lemma DescRoundTrip(d: SaAttrDesc)
    ensures Desc(PackDesc(d)) == d
  {
    var v, id, bswap, size := PackDesc(d) as nat, d.id as nat, d.bswap as nat, d.size as nat;
    DivModOf(v, 0x1_0000, bswap + 256 * size, id);
    DivModOf(bswap + 256 * size, 256, size, bswap);
    DivModOf(v, 0x100_0000, size, id + 0x1_0000 * bswap);
    DivModOf(size, 0x1_0000, 0, size);
  }

  function Registered(entries: seq<Named<u64>>): SaRegistry {
    SaRegistry(seq(|entries|, i requires 0 <= i < |entries| => (NameOf(entries[i].name), Desc(entries[i].value))))
  }

  function ParseSaRegistry(data: seq<byte>): SaRegistry { Registered(Listing(data)) }

  function PrintRegistry(registry: SaRegistry): (entries: seq<Named<u64>>)
    ensures |entries| == |registry.entries|
  {
    seq(|registry.entries|, i requires 0 <= i < |registry.entries| =>
      Named(SpellingOf(registry.entries[i].0), PackDesc(registry.entries[i].1)))
  }

  lemma RegistryRoundTrip(registry: SaRegistry)
    requires forall i :: 0 <= i < |registry.entries| ==> Proper(registry.entries[i].0)
    ensures Registered(PrintRegistry(registry)) == registry
  {
    hide NameOf, SpellingOf, Desc, PackDesc;
    var back := Registered(PrintRegistry(registry)).entries;
    forall i | 0 <= i < |back| ensures back[i] == registry.entries[i] {
      NameRoundTrip(registry.entries[i].0);
      DescRoundTrip(registry.entries[i].1);
    }
  }

  /** A registry written as a micro object is read back. */
  lemma WrittenRegistryReads(registry: SaRegistry, header: seq<byte>, slots: seq<Slot>, pad: seq<byte>)
    requires |header| == MZAP_HDR_SIZE && Le64(header, 0) == ZBT_MICRO
    requires AllSlots(slots) && |pad| < MZAP_ENT_SIZE && ListedSlots(slots) == PrintRegistry(registry)
    requires forall i :: 0 <= i < |registry.entries| ==> Proper(registry.entries[i].0)
    ensures ParseSaRegistry(header + PrintSlots(slots) + pad) == registry
  {
    hide Registered, PrintRegistry, Listing, ListedSlots, AllSlots, PrintSlots;
    WrittenMicroLists(header, slots, pad);
    RegistryRoundTrip(registry);
  }

  // ---- layouts -------------------------------------------------------------

  /** The number a run of decimal digits continues `acc` to, if it fits 64 bits. */
  function ParseDigits(s: seq<byte>, acc: u64): Option<u64> {
    if s == [] then Some(acc)
    else if s[0] < 48 || s[0] > 57 || acc * 10 + (s[0] as int - 48) >= TWO64 then None
    else ParseDigits(s[1..], acc * 10 + (s[0] as int - 48))
  }

  /** Rust's `str::parse::<u64>`: at least one digit, after an optional plus sign. */
  function ParseU64(s: seq<byte>): Option<u64> {
    var digits := if s != [] && s[0] == 43 then s[1..] else s;
    if digits == [] then None else ParseDigits(digits, 0)
  }

  function Decimal(n: nat): (s: seq<byte>)
    ensures s != [] && 48 <= s[0] <= 57
  {
    if n < 10 then [48 + n] else Decimal(n / 10) + [48 + n % 10]
  }

  lemma {:induction false} ParseAppend(s: seq<byte>, c: byte, acc: u64)
    ensures ParseDigits(s + [c], acc)
         == match ParseDigits(s, acc)
            case None => None
            case Some(v) => ParseDigits([c], v)
    decreases |s|
  {
    if s == [] {
      assert s + [c] == [c];
    } else {
      SplitHead(s, [c]);
      if 48 <= s[0] <= 57 && acc * 10 + (s[0] as int - 48) < TWO64 {
        ParseAppend(s[1..], c, acc * 10 + (s[0] as int - 48));
      }
    }
  }

  lemma {:induction false} DigitsRoundTrip(n: u64)
    ensures ParseDigits(Decimal(n), 0) == Some(n)
    decreases n
  {
    if n < 10 {
      OneDigit(n, 0);
    } else {
      DigitsRoundTrip(n / 10);
      ParseAppend(Decimal(n / 10), 48 + n % 10, 0);
      OneDigit(n % 10, n / 10);
    }
  }

  lemma OneDigit(d: nat, acc: u64)
    requires d < 10 && acc * 10 + d < TWO64
    ensures ParseDigits([48 + d], acc) == Some(acc * 10 + d)
  {
    assert ParseDigits([48 + d][1..], acc * 10 + d) == Some(acc * 10 + d);
  }

  lemma NumberRoundTrip(n: u64)
    ensures ParseU64(Decimal(n)) == Some(n)
  {
    DigitsRoundTrip(n);
  }

  /** Big-endian 16-bit ids; an odd last byte is left over. */
  function Ids(bytes: seq<byte>): seq<u16> {
    if |bytes| < 2 then [] else [256 * bytes[0] as int + bytes[1] as int] + Ids(bytes[2..])
  }

  function PrintIds(ids: seq<u16>): seq<byte> {
    if ids == [] then [] else [ids[0] / 256, ids[0] % 256] + PrintIds(ids[1..])
  }

  lemma {:induction false} IdsRoundTrip(ids: seq<u16>)
    ensures Ids(PrintIds(ids)) == ids
  {
    if ids == [] {
    } else {
      IdsRoundTrip(ids[1..]);
      assert PrintIds(ids)[2..] == PrintIds(ids[1..]);
    }
  }

  /** The layouts of a listing; an entry whose name is no number is skipped. */
  function LayoutsOf(entries: seq<Named<seq<byte>>>): seq<(u64, seq<u16>)> {
    if entries == [] then []
    else (match ParseU64(entries[0].name)
          case None => []
          case Some(num) => [(num, Ids(entries[0].value))]) + LayoutsOf(entries[1..])
  }

  method ParseSaLayouts(data: seq<byte>) returns (layouts: SaLayouts)
    ensures layouts == SaLayouts(LayoutsOf(ArrayListing(data)))
  {
    hide ArrayListing, ParseU64, Ids;
    var entries := ZapListArrays(data);
    var out: seq<(u64, seq<u16>)> := [];
    var k := 0;
    while k < |entries|
      invariant 0 <= k <= |entries|
      invariant out + LayoutsOf(entries[k..]) == LayoutsOf(entries)
    {
      var entry := entries[k];
      assert entries[k..][0] == entry && entries[k..][1..] == entries[k + 1..];
      var num := ParseU64(entry.name);
      k := k + 1;
      if num.None? { continue; }
      out := out + [(num.value, Ids(entry.value))];
    }
    layouts := SaLayouts(out);
  }

  function PrintLayouts(layouts: seq<(u64, seq<u16>)>): seq<Named<seq<byte>>> {
    if layouts == [] then []
    else [Named(Decimal(layouts[0].0), PrintIds(layouts[0].1))] + PrintLayouts(layouts[1..])
  }

  lemma {:induction false} LayoutsRoundTrip(layouts: seq<(u64, seq<u16>)>)
    ensures LayoutsOf(PrintLayouts(layouts)) == layouts
    decreases |layouts|
  {
    hide ParseU64, Decimal, Ids, PrintIds;
    if layouts == [] {
    } else {
      NumberRoundTrip(layouts[0].0);
      IdsRoundTrip(layouts[0].1);
      LayoutsRoundTrip(layouts[1..]);
      assert PrintLayouts(layouts)[1..] == PrintLayouts(layouts[1..]);
    }
  }

  /** Layouts written as a fat object are read back. */
  lemma WrittenLayoutsRead(layouts: seq<(u64, seq<u16>)>, o: Object)
    requires o.Ok() && ListedRegions(o.regions) == PrintLayouts(layouts)
    ensures LayoutsOf(ArrayListing(o.Print())) == layouts
  {
    hide LayoutsOf, PrintLayouts, ListedRegions, ArrayListing, Listing;
    WrittenObjectLists(o);
    LayoutsRoundTrip(layouts);
  }

  /** So an attribute packed under a written layout is found by name through the registry
      and the layouts read back from their objects. */
  lemma AttributeReadsThroughObjects(
      registry: SaRegistry, layouts: SaLayouts, header: seq<byte>, slots: seq<Slot>, pad: seq<byte>, o: Object,
      ids: seq<u16>, b: Buffer, name: AttrName)
    requires |header| == MZAP_HDR_SIZE && Le64(header, 0) == ZBT_MICRO
    requires AllSlots(slots) && |pad| < MZAP_ENT_SIZE && ListedSlots(slots) == PrintRegistry(registry)
    requires forall i :: 0 <= i < |registry.entries| ==> Proper(registry.entries[i].0)
    requires o.Ok() && ListedRegions(o.regions) == PrintLayouts(layouts.entries)
    requires b.Ok(registry, ids) && layouts.AttrIds(b.num) == Some(ids)
    ensures AttrBytes(b.Print(registry, ids), ParseSaRegistry(header + PrintSlots(slots) + pad),
                      SaLayouts(LayoutsOf(ArrayListing(o.Print()))), name)
         == match registry.ByName(name)
            case None => None
            case Some(d) => ValueOf(ids, b.values, d.id)
  {
    hide ParseSaRegistry, LayoutsOf, ArrayListing, AttrBytes, PrintRegistry, PrintLayouts, ListedSlots, ListedRegions;
    WrittenRegistryReads(registry, header, slots, pad);
    WrittenLayoutsRead(layouts.entries, o);
    PackedAttributesRead(registry, layouts, ids, b, name);
  }

  // ---- names and numbers by hand -------------------------------------------

  /** The twelve known names in ASCII. */
  lemma KnownNames()
    ensures NameOf([90, 80, 76, 95, 77, 79, 68, 69]) == Zpl(Mode)
    ensures NameOf([90, 80, 76, 95, 83, 73, 90, 69]) == Zpl(Size)
    ensures NameOf([90, 80, 76, 95, 76, 73, 78, 75, 83]) == Zpl(Links)
    ensures NameOf([90, 80, 76, 95, 85, 73, 68]) == Zpl(Uid)
    ensures NameOf([90, 80, 76, 95, 71, 73, 68]) == Zpl(Gid)
    ensures NameOf([90, 80, 76, 95, 71, 69, 78]) == Zpl(Gen)
    ensures NameOf([90, 80, 76, 95, 80, 65, 82, 69, 78, 84]) == Zpl(Parent)
    ensures NameOf([90, 80, 76, 95, 70, 76, 65, 71, 83]) == Zpl(Flags)
    ensures NameOf([90, 80, 76, 95, 65, 84, 73, 77, 69]) == Zpl(Atime)
    ensures NameOf([90, 80, 76, 95, 77, 84, 73, 77, 69]) == Zpl(Mtime)
    ensures NameOf([90, 80, 76, 95, 67, 84, 73, 77, 69]) == Zpl(Ctime)
    ensures NameOf([90, 80, 76, 95, 67, 82, 84, 73, 77, 69]) == Zpl(Crtime)
  {
    hide NameOf;
    KnownName(Mode, [90, 80, 76, 95, 77, 79, 68, 69]);
    KnownName(Size, [90, 80, 76, 95, 83, 73, 90, 69]);
    KnownName(Links, [90, 80, 76, 95, 76, 73, 78, 75, 83]);
    KnownName(Uid, [90, 80, 76, 95, 85, 73, 68]);
    KnownName(Gid, [90, 80, 76, 95, 71, 73, 68]);
    KnownName(Gen, [90, 80, 76, 95, 71, 69, 78]);
    KnownName(Parent, [90, 80, 76, 95, 80, 65, 82, 69, 78, 84]);
    KnownName(Flags, [90, 80, 76, 95, 70, 76, 65, 71, 83]);
    KnownName(Atime, [90, 80, 76, 95, 65, 84, 73, 77, 69]);
    KnownName(Mtime, [90, 80, 76, 95, 77, 84, 73, 77, 69]);
    KnownName(Ctime, [90, 80, 76, 95, 67, 84, 73, 77, 69]);
    KnownName(Crtime, [90, 80, 76, 95, 67, 82, 84, 73, 77, 69]);
  }

  lemma KnownName(f: Field, spelling: seq<byte>)
    requires Spelling(f) == spelling
    ensures NameOf(spelling) == Zpl(f)
  {
    hide Spelling;
    NameRoundTrip(Zpl(f));
  }

  /** A registry value by its bits: the id in the low 16, a byte of byteswap class, the size
      in the 16 above. */
  lemma DescByBits(id: u16, bswap: byte, size: u16, high: nat)
    requires high < 0x100_0000
    ensures Desc(id + 0x1_0000 * bswap as int + 0x100_0000 * size + 0x100_0000_0000 * high)
         == SaAttrDesc(id, size, bswap)
  {
    var b, z, h := bswap as nat, size as nat, high;
    var v := id + 0x1_0000 * b + 0x100_0000 * z + 0x100_0000_0000 * h;
    DivModOf(v, 0x1_0000, b + 256 * (z + 0x1_0000 * h), id);
    DivModOf(b + 256 * (z + 0x1_0000 * h), 256, z + 0x1_0000 * h, b);
    DivModOf(v, 0x100_0000, z + 0x1_0000 * h, id + 0x1_0000 * b);
    DivModOf(z + 0x1_0000 * h, 0x1_0000, h, z);
  }

  /** Layout names: decimal digits, with a plus sign or without; nothing else is a number. */
  lemma NumbersByHand(n: u64)
    ensures ParseU64([43] + Decimal(n)) == Some(n)
    ensures ParseU64([]) == None && ParseU64([43]) == None && ParseU64([49, 120]) == None
    ensures ParseU64([49, 56]) == Some(18)
  {
    NumberRoundTrip(n);
    var s: seq<byte> := [43] + Decimal(n);
    assert s[1..] == Decimal(n);
    DigitsRoundTrip(n);
    var digits: seq<byte>, letters: seq<byte> := [49, 56], [49, 120];
    assert digits[1..] == [56] && letters[1..] == [120];
    OneDigit(8, 1);
    assert ParseDigits([56], 1) == Some(18) && ParseDigits([120], 1) == None;
  }

  /** Ids are 16-bit, high byte first. */
  lemma KnownIds()
    ensures Ids([0, 5, 1, 6, 9]) == [5, 262]
  {
    var bytes: seq<byte> := [0, 5, 1, 6, 9];
    assert bytes[2..] == [1, 6, 9] && bytes[2..][2..] == [9];
    assert Ids([9]) == [] && Ids([1, 6, 9]) == [262];
  }
}
