/** The packed XDR name/value list (core/src/nvlist.rs): the recursive offset-based
    parser, the printer it inverts, and the bounds it enforces. Strings are byte
    sequences. XDR integers, strings and opaque data follow sections 4.1, 4.5, 4.9,
    4.10 and 4.11 of RFC 4506. */
module Nvlist {
  import opened Bytes

  const NV_ENCODE_XDR := 1
  const TYPE_UINT64 := 8
  const TYPE_STRING := 9
  const TYPE_BYTE_ARRAY := 10
  const TYPE_NVLIST := 19
  const TYPE_UINT8_ARRAY := 26

  const MAX_NAME_LEN := 4096
  const MAX_STRING_LEN := 65536
  const MAX_PAIRS := 4096
  const MAX_DEPTH := 16

  datatype NvValue = U64(v: u64) | Str(s: seq<byte>) | Bytes(b: seq<byte>) | Nested(list: NvList)
  datatype NvPair = NvPair(name: seq<byte>, value: NvValue)
  datatype NvList = NvList(pairs: seq<NvPair>)

  /** A result together with the offset just past what was read. */
  datatype Parsed<+T> = Parsed(value: T, next: nat)

  // ---- the parser ----------------------------------------------------------

  /** A big-endian 32-bit word read as a signed number. */
  function XdrI32(data: seq<byte>, off: nat): int {
    var w := ReadU32(Big, data, off);
    if w < 0x8000_0000 then w else w - 0x1_0000_0000
  }

  function Padded(n: nat): nat { (n + 3) / 4 * 4 }

  function ReadXdrString(data: seq<byte>, off: nat, field: NvField, cap: nat): Result<Parsed<seq<byte>>> {
    var len := XdrI32(data, off);
    if len < 0 then Err(NvlistBomb(field, -len, cap))
    else if len > cap then Err(NvlistBomb(field, len, cap))
    else
      var start := off + 4;
      match Slice(data, start, start + len)
      case None => Err(Truncated(XdrString, len, if start < |data| then |data| - start else 0))
      case Some(raw) => Ok(Parsed(raw, start + Padded(len)))
  }

  /** The value of a pair, or None for a type the reader does not consume. */
  function ReadValue(data: seq<byte>, afterName: nat, depth: nat): Result<Option<NvValue>>
    requires depth <= MAX_DEPTH
    decreases MAX_DEPTH - depth, 0
  {
    var dataType := XdrI32(data, afterName);
    var valueOff := afterName + 8;
    if dataType == TYPE_UINT64 then Ok(Some(U64(ReadU64(Big, data, valueOff))))
    else if dataType == TYPE_STRING then
      match ReadXdrString(data, valueOff, PairString, MAX_STRING_LEN)
      case Err(e) => Err(e)
      case Ok(s) => Ok(Some(Str(s.value)))
    else if dataType == TYPE_NVLIST then
      if depth + 1 > MAX_DEPTH then Err(NvlistBomb(Depth, depth + 1, MAX_DEPTH))
      else
        match ParsePairs(data, valueOff + 8, depth + 1, [], MAX_PAIRS)
        case Err(e) => Err(e)
        case Ok(nested) => Ok(Some(Nested(nested.value)))
    else if dataType == TYPE_BYTE_ARRAY || dataType == TYPE_UINT8_ARRAY then
      var n := ReadU32(Big, data, afterName + 4);
      if n > MAX_STRING_LEN then Err(NvlistBomb(ByteArrayNelem, n, MAX_STRING_LEN))
      else
        match Slice(data, valueOff, valueOff + n)
        case None => Ok(Some(Bytes([])))
        case Some(bytes) => Ok(Some(Bytes(bytes)))
    else Ok(None)
  }

  /** The pair loop: `turns` iterations left, `acc` decoded so far. */
  function ParsePairs(data: seq<byte>, cur: nat, depth: nat, acc: seq<NvPair>, turns: nat): Result<Parsed<NvList>>
    requires depth <= MAX_DEPTH
    decreases MAX_DEPTH - depth, 1, turns
  {
    if turns == 0 then Err(NvlistBomb(PairCount, MAX_PAIRS, MAX_PAIRS))
    else
      var size := XdrI32(data, cur);
      if size == 0 then Ok(Parsed(NvList(acc), cur + 8))
      else if size < 0 then Err(NvlistBomb(EncodedSize, -size, 0x7fff_ffff))
      else
        match ReadXdrString(data, cur + 8, PairName, MAX_NAME_LEN)
        case Err(e) => Err(e)
        case Ok(name) =>
          match ReadValue(data, name.next, depth)
          case Err(e) => Err(e)
          case Ok(None) => ParsePairs(data, cur + size, depth, acc, turns - 1)
          case Ok(Some(value)) =>
            var more := acc + [NvPair(name.value, value)];
            if cur + size >= |data| then Ok(Parsed(NvList(more), cur + size))
            else ParsePairs(data, cur + size, depth, more, turns - 1)
  }

  function ParseBody(data: seq<byte>, off: nat, depth: nat): Result<Parsed<NvList>> {
    if depth > MAX_DEPTH then Err(NvlistBomb(Depth, depth, MAX_DEPTH))
    else ParsePairs(data, off + 8, depth, [], MAX_PAIRS)
  }

  function Parse(data: seq<byte>): Result<NvList> {
    if U8At(data, 0) != NV_ENCODE_XDR then Err(BadNvlistEncoding(U8At(data, 0)))
    else if |data| < 4 then Err(Truncated(NvlistHeader, 4, |data|))
    else
      match ParseBody(data, 4, 0)
      case Err(e) => Err(e)
      case Ok(r) => Ok(r.value)
  }

  /** The source's parser: a loop over pairs that calls itself for nested lists. */
  method ParseBodyAt(data: seq<byte>, off: nat, depth: nat) returns (r: Result<Parsed<NvList>>)
    requires depth <= MAX_DEPTH + 1
    ensures r == ParseBody(data, off, depth)
    decreases MAX_DEPTH + 1 - depth
  {
    hide ReadXdrString, XdrI32, ReadU32, ReadU64;
    if depth > MAX_DEPTH {
      return Err(NvlistBomb(Depth, depth, MAX_DEPTH));
    }
    var cur: nat := off + 8;
    var pairs: seq<NvPair> := [];
    for i := 0 to MAX_PAIRS
      invariant ParseBody(data, off, depth) == ParsePairs(data, cur, depth, pairs, MAX_PAIRS - i)
    {
      var size := XdrI32(data, cur);
      if size == 0 { return Ok(Parsed(NvList(pairs), cur + 8)); }
      if size < 0 { return Err(NvlistBomb(EncodedSize, -size, 0x7fff_ffff)); }
      var pairStart := cur;
      var name := ReadXdrString(data, cur + 8, PairName, MAX_NAME_LEN);
      if name.Err? { return Err(name.error); }
      var value := ReadValueAt(data, name.value.next, depth);
      if value.Err? { return Err(value.error); }
      cur := pairStart + size;
      if value.value.None? { continue; }
      pairs := pairs + [NvPair(name.value.value, value.value.value)];
      if cur >= |data| { return Ok(Parsed(NvList(pairs), cur)); }
    }
    return Err(NvlistBomb(PairCount, MAX_PAIRS, MAX_PAIRS));
  }

  /** The match on the data type inside that loop. */
  method ReadValueAt(data: seq<byte>, afterName: nat, depth: nat) returns (r: Result<Option<NvValue>>)
    requires depth <= MAX_DEPTH
    ensures r == ReadValue(data, afterName, depth)
    decreases MAX_DEPTH + 1 - depth, 0
  {
    hide ReadXdrString, XdrI32, ReadU32, ReadU64, ParsePairs;
    var dataType := XdrI32(data, afterName);
    var valueOff := afterName + 8;
    if dataType == TYPE_UINT64 {
      return Ok(Some(U64(ReadU64(Big, data, valueOff))));
    } else if dataType == TYPE_STRING {
      var s := ReadXdrString(data, valueOff, PairString, MAX_STRING_LEN);
      if s.Err? { return Err(s.error); }
      return Ok(Some(Str(s.value.value)));
    } else if dataType == TYPE_NVLIST {
      var nested := ParseBodyAt(data, valueOff, depth + 1);
      if nested.Err? { return Err(nested.error); }
      return Ok(Some(Nested(nested.value.value)));
    } else if dataType == TYPE_BYTE_ARRAY || dataType == TYPE_UINT8_ARRAY {
      var n := ReadU32(Big, data, afterName + 4);
      if n > MAX_STRING_LEN { return Err(NvlistBomb(ByteArrayNelem, n, MAX_STRING_LEN)); }
      var bytes := Slice(data, valueOff, valueOff + n);
      return Ok(Some(Bytes(if bytes.None? then [] else bytes.value)));
    } else {
      return Ok(None);
    }
  }

  // ---- the printer ---------------------------------------------------------

  /** What a writer may put into a list: pairs the reader consumes, and pairs of other
      types with any payload. */
  datatype Entry =
    | Pair(name: seq<byte>, value: Tree, nelem: u32, decoded: u32)
    | Foreign(name: seq<byte>, dataType: u32, nelem: u32, payload: seq<byte>, decoded: u32)

  datatype Tree =
    | TU64(v: u64)
    | TStr(s: seq<byte>)
    | TBytes(b: seq<byte>, uint8: bool)
    | TList(entries: seq<Entry>, version: u32, flag: u32)

  function Word(v: u32): (bs: seq<byte>)
    ensures |bs| == 4
  {
    NatBytes(Big, v, 4)
  }

  /** Opaque data, padded with zeros to a multiple of four bytes. */
  function Opaque(s: seq<byte>): (bs: seq<byte>)
    ensures |bs| == Padded(|s|)
  {
    s + Repeat(0, Padded(|s|) - |s|)
  }

  function PrintString(s: seq<byte>): (bs: seq<byte>)
    requires |s| < 0x8000_0000
    ensures |bs| == 4 + Padded(|s|)
  {
    Word(|s|) + Opaque(s)
  }

  predicate Consumed(dataType: nat) {
    dataType == TYPE_UINT64 || dataType == TYPE_STRING || dataType == TYPE_NVLIST
    || dataType == TYPE_BYTE_ARRAY || dataType == TYPE_UINT8_ARRAY
  }

  /** An entry at nesting depth `depth` that stays within the reader's caps. */
  predicate Printable(e: Entry, depth: nat)
    decreases e
  {
    && |e.name| <= 4096
    && (e.Foreign? ==> !Consumed(e.dataType))
    && (e.Pair? ==> TreePrintable(e.value, depth))
    && (e.Pair? && e.value.TBytes? ==> e.nelem == |e.value.b|)
    && 8 + |EntryTail(e)| < 0x8000_0000
  }

  predicate TreePrintable(t: Tree, depth: nat)
    decreases t
  {
    match t
    case TU64(_) => true
    case TStr(s) => |s| <= 65536
    case TBytes(b, _) => |b| <= 65536
    case TList(entries, _, _) => depth < 16 && |entries| < 4096 && AllPrintable(entries, depth + 1)
  }

  predicate AllPrintable(entries: seq<Entry>, depth: nat)
    decreases entries
  {
    entries == [] || (Printable(entries[0], depth) && AllPrintable(entries[1..], depth))
  }

  function TypeOf(t: Tree): u32 {
    match t
    case TU64(_) => TYPE_UINT64
    case TStr(_) => TYPE_STRING
    case TBytes(_, uint8) => if uint8 then TYPE_UINT8_ARRAY else TYPE_BYTE_ARRAY
    case TList(_, _, _) => TYPE_NVLIST
  }

  function TreeBytes(t: Tree): seq<byte>
    decreases t
  {
    match t
    case TU64(v) => NatBytes(Big, v, 8)
    case TStr(s) => if |s| < 0x8000_0000 then PrintString(s) else []
    case TBytes(b, _) => Opaque(b)
    case TList(entries, version, flag) => Word(version) + Word(flag) + EntriesBytes(entries) + Terminator()
  }

  function Terminator(): (bs: seq<byte>)
    ensures |bs| == 8
  {
    Word(0) + Word(0)
  }

  /** Everything of an entry after its two size words. */
  function EntryTail(e: Entry): seq<byte>
    decreases e, 0
  {
    var name := if |e.name| < 0x8000_0000 then PrintString(e.name) else [];
    match e
    case Pair(_, value, nelem, _) => name + Word(TypeOf(value)) + Word(nelem) + TreeBytes(value)
    case Foreign(_, dataType, nelem, payload, _) => name + Word(dataType) + Word(nelem) + payload
  }

  function EntryBytes(e: Entry): seq<byte>
    decreases e, 1
  {
    var size := 8 + |EntryTail(e)|;
    if size < 0x8000_0000 then Word(size) + Word(e.decoded) + EntryTail(e) else []
  }

  function EntriesBytes(entries: seq<Entry>): seq<byte>
    decreases entries
  {
    if entries == [] then [] else EntryBytes(entries[0]) + EntriesBytes(entries[1..])
  }

  /** What the reader should make of the entries. */
  function Erase(entries: seq<Entry>): seq<NvPair>
    decreases entries
  {
    if entries == [] then []
    else (match entries[0]
          case Pair(name, value, _, _) => [NvPair(name, EraseTree(value))]
          case Foreign(_, _, _, _, _) => []) + Erase(entries[1..])
  }

  function EraseTree(t: Tree): NvValue
    decreases t
  {
    match t
    case TU64(v) => U64(v)
    case TStr(s) => Str(s)
    case TBytes(b, _) => Bytes(b)
    case TList(entries, _, _) => Nested(NvList(Erase(entries)))
  }

  // ---- round trip ----------------------------------------------------------

  lemma ReadWord(data: seq<byte>, off: nat, v: u32)
    requires At(data, off, Word(v))
    ensures ReadU32(Big, data, off) == v
    ensures v < 0x8000_0000 ==> XdrI32(data, off) == v
    ensures v >= 0x8000_0000 ==> XdrI32(data, off) < 0
  {
    Pow256Values();
    AtRead(Big, data, off, v, 4);
  }

  lemma ReadPrintedString(data: seq<byte>, off: nat, s: seq<byte>, field: NvField, cap: nat)
    requires |s| <= cap < 0x8000_0000 && At(data, off, PrintString(s))
    ensures ReadXdrString(data, off, field, cap) == Ok(Parsed(s, off + |PrintString(s)|))
  {
    AtSplit(data, off, Word(|s|), Opaque(s));
    AtSplit(data, off + 4, s, Repeat(0, Padded(|s|) - |s|));
    ReadWord(data, off, |s|);
  }

  /** The printed value is read back; nested lists recurse into the body lemma. */
  lemma {:induction false} ReadPrintedValue(data: seq<byte>, afterName: nat, t: Tree, nelem: u32, depth: nat)
    requires depth <= MAX_DEPTH && TreePrintable(t, depth) && (t.TBytes? ==> nelem == |t.b|)
    requires At(data, afterName, Word(TypeOf(t))) && At(data, afterName + 4, Word(nelem))
    requires At(data, afterName + 8, TreeBytes(t))
    ensures ReadValue(data, afterName, depth) == Ok(Some(EraseTree(t)))
    decreases t
  {
    hide ParsePairs, ReadXdrString, XdrI32, Erase, EntriesBytes;
    ReadWord(data, afterName, TypeOf(t));
    match t
    case TU64(v) =>
      Pow256Values();
      AtRead(Big, data, afterName + 8, v, 8);
    case TStr(s) =>
      ReadPrintedString(data, afterName + 8, s, PairString, MAX_STRING_LEN);
    case TBytes(b, _) =>
      ReadWord(data, afterName + 4, nelem);
      AtSplit(data, afterName + 8, b, Repeat(0, Padded(|b|) - |b|));
    case TList(entries, version, flag) =>
      ParsePrintedList(data, afterName + 8, entries, version, flag, depth + 1);
  }

  /** A printed list body anywhere in a buffer parses to its pairs. */
  lemma {:induction false} ParsePrintedList(
      data: seq<byte>, off: nat, entries: seq<Entry>, version: u32, flag: u32, depth: nat)
    requires depth <= MAX_DEPTH && |entries| < MAX_PAIRS && AllPrintable(entries, depth)
    requires At(data, off, Word(version) + Word(flag) + EntriesBytes(entries) + Terminator())
    ensures ParsePairs(data, off + 8, depth, [], MAX_PAIRS)
         == Ok(Parsed(NvList(Erase(entries)), off + 8 + |EntriesBytes(entries)| + 8))
    decreases entries, 1
  {
    hide XdrI32, EntriesBytes, Erase, AllPrintable, At, Word, ParsePairs;
    AtSplit(data, off, Word(version) + Word(flag) + EntriesBytes(entries), Terminator());
    AtSplit(data, off, Word(version) + Word(flag), EntriesBytes(entries));
    AtFits(data, off + 8 + |EntriesBytes(entries)|, Terminator());
    var q := off + 8 + |EntriesBytes(entries)|;
    WalkEntries(data, off + 8, entries, depth, [], MAX_PAIRS);
    AtSplit(data, q, Word(0), Word(0));
    ReadWord(data, q, 0);
    ListEnds(data, q, depth, [] + Erase(entries), MAX_PAIRS - |entries|);
    assert [] + Erase(entries) == Erase(entries);
  }

  lemma ListEnds(data: seq<byte>, cur: nat, depth: nat, acc: seq<NvPair>, turns: nat)
    requires depth <= MAX_DEPTH && turns > 0 && XdrI32(data, cur) == 0
    ensures ParsePairs(data, cur, depth, acc, turns) == Ok(Parsed(NvList(acc), cur + 8))
  {
    hide XdrI32;
  }

  lemma AtFits(data: seq<byte>, off: nat, bs: seq<byte>)
    requires At(data, off, bs)
    ensures off + |bs| <= |data|
  {
  }

  /** The loop walks over printed entries, keeping exactly the pairs. */
  lemma {:induction false} WalkEntries(
      data: seq<byte>, cur: nat, entries: seq<Entry>, depth: nat, acc: seq<NvPair>, turns: nat)
    requires depth <= MAX_DEPTH && |entries| <= turns && AllPrintable(entries, depth)
    requires At(data, cur, EntriesBytes(entries)) && cur + |EntriesBytes(entries)| < |data|
    ensures ParsePairs(data, cur, depth, acc, turns)
         == ParsePairs(data, cur + |EntriesBytes(entries)|, depth, acc + Erase(entries), turns - |entries|)
    decreases entries, 0
  {
    hide ParsePairs, EntryBytes, Printable;
    if entries == [] {
      assert acc + Erase(entries) == acc;
    } else {
      var e, rest := entries[0], entries[1..];
      AtSplit(data, cur, EntryBytes(e), EntriesBytes(rest));
      WalkEntry(data, cur, e, depth, acc, turns);
      var next := acc + Erase([e]);
      WalkEntries(data, cur + |EntryBytes(e)|, rest, depth, next, turns - 1);
      EraseHead(entries);
      Reassociate(acc, Erase([e]), Erase(rest));
    }
  }

  lemma EraseHead(entries: seq<Entry>)
    requires entries != []
    ensures Erase(entries) == Erase([entries[0]]) + Erase(entries[1..])
  {
    assert [entries[0]][1..] == [];
    assert Erase([entries[0]][1..]) == [];
  }

  lemma EraseOne(e: Entry)
    ensures Erase([e]) == if e.Pair? then [NvPair(e.name, EraseTree(e.value))] else []
  {
    assert [e][1..] == [];
    assert Erase([e][1..]) == [];
  }

  /** The parts of a printed entry at their offsets. */
  lemma EntryParts(data: seq<byte>, cur: nat, e: Entry, depth: nat)
    requires Printable(e, depth) && At(data, cur, EntryBytes(e))
    ensures var afterName := cur + 8 + |PrintString(e.name)|;
      && XdrI32(data, cur) == 8 + |EntryTail(e)| == |EntryBytes(e)|
      && ReadXdrString(data, cur + 8, PairName, MAX_NAME_LEN) == Ok(Parsed(e.name, afterName))
      && At(data, afterName, Word(if e.Pair? then TypeOf(e.value) else e.dataType))
      && At(data, afterName + 4, Word(e.nelem))
      && (e.Pair? ==> At(data, afterName + 8, TreeBytes(e.value)))
  {
    hide At, XdrI32, ReadXdrString, TreeBytes, TreePrintable;
    var size, name := 8 + |EntryTail(e)|, PrintString(e.name);
    var kind := Word(if e.Pair? then TypeOf(e.value) else e.dataType);
    var rest := if e.Pair? then TreeBytes(e.value) else e.payload;
    assert EntryTail(e) == name + kind + Word(e.nelem) + rest;
    AtSplit(data, cur, Word(size) + Word(e.decoded), EntryTail(e));
    AtSplit(data, cur, Word(size), Word(e.decoded));
    ReadWord(data, cur, size);
    var at := cur + 8;
    AtSplit(data, at, name + kind + Word(e.nelem), rest);
    AtSplit(data, at, name + kind, Word(e.nelem));
    AtSplit(data, at, name, kind);
    ReadPrintedString(data, at, e.name, PairName, MAX_NAME_LEN);
  }

  /** One turn of the loop on a printed entry. */
  lemma {:induction false} WalkEntry(data: seq<byte>, cur: nat, e: Entry, depth: nat, acc: seq<NvPair>, turns: nat)
    requires depth <= MAX_DEPTH && turns > 0 && Printable(e, depth) && At(data, cur, EntryBytes(e))
    ensures ParsePairs(data, cur, depth, acc, turns) ==
      var next := cur + |EntryBytes(e)|; var more := acc + Erase([e]);
      if e.Pair? && next >= |data| then Ok(Parsed(NvList(more), next))
      else ParsePairs(data, next, depth, more, turns - 1)
    decreases e
  {
    hide At, XdrI32, ReadXdrString, ReadValue, ParsePairs, EntryBytes, EntryTail;
    hide Erase, EraseTree, TreeBytes, TreePrintable;
    EntryParts(data, cur, e, depth);
    EraseOne(e);
    var afterName := cur + 8 + |PrintString(e.name)|;
    if e.Pair? {
      ReadPrintedValue(data, afterName, e.value, e.nelem, depth);
      ParseStep(data, cur, depth, acc, turns, |EntryBytes(e)|, e.name, afterName, Some(EraseTree(e.value)));
    } else {
      SkipUnconsumed(data, afterName, e.dataType, depth);
      ParseStep(data, cur, depth, acc, turns, |EntryBytes(e)|, e.name, afterName, None);
      assert acc + [] == acc;
    }
  }

  lemma SkipUnconsumed(data: seq<byte>, afterName: nat, dataType: u32, depth: nat)
    requires depth <= MAX_DEPTH && !Consumed(dataType) && At(data, afterName, Word(dataType))
    ensures ReadValue(data, afterName, depth) == Ok(None)
  {
    hide At, XdrI32;
    ReadWord(data, afterName, dataType);
  }

  /** The loop body, given what its reads find. */
  lemma ParseStep(
      data: seq<byte>, cur: nat, depth: nat, acc: seq<NvPair>, turns: nat,
      size: nat, name: seq<byte>, afterName: nat, value: Option<NvValue>)
    requires depth <= MAX_DEPTH && turns > 0 && size > 0 && XdrI32(data, cur) == size
    requires ReadXdrString(data, cur + 8, PairName, MAX_NAME_LEN) == Ok(Parsed(name, afterName))
    requires ReadValue(data, afterName, depth) == Ok(value)
    ensures ParsePairs(data, cur, depth, acc, turns) ==
      if value == None then ParsePairs(data, cur + size, depth, acc, turns - 1)
      else if cur + size >= |data| then Ok(Parsed(NvList(acc + [NvPair(name, value.value)]), cur + size))
      else ParsePairs(data, cur + size, depth, acc + [NvPair(name, value.value)], turns - 1)
  {
    hide XdrI32, ReadXdrString, ReadValue;
  }

  /** Printing any list of entries and parsing it, whatever bytes follow and whatever the
      header's other three bytes hold, gives the tree back without the foreign entries. */
  lemma RoundTrip(entries: seq<Entry>, version: u32, flag: u32, header: seq<byte>, post: seq<byte>)
    requires |header| == 3 && |entries| < 4096 && AllPrintable(entries, 0)
    ensures Parse([NV_ENCODE_XDR] + header + TreeBytes(TList(entries, version, flag)) + post)
         == Ok(NvList(Erase(entries)))
  {
    hide ParsePairs, EntriesBytes, Erase, AllPrintable;
    var body := TreeBytes(TList(entries, version, flag));
    var data := [NV_ENCODE_XDR] + header + body + post;
    AtPrefix([NV_ENCODE_XDR] + header, body, post);
    assert data[0] == NV_ENCODE_XDR;
    ParsePrintedList(data, 4, entries, version, flag, 0);
  }

  lemma EndOfData(data: seq<byte>, cur: nat, depth: nat, acc: seq<NvPair>, turns: nat)
    requires depth <= MAX_DEPTH && turns > 0 && cur + 4 > |data|
    ensures ParsePairs(data, cur, depth, acc, turns) == Ok(Parsed(NvList(acc), cur + 8))
  {
    hide ParsePairs;
    assert XdrI32(data, cur) == 0;
    ListEnds(data, cur, depth, acc, turns);
  }

  /** The reader takes a buffer that ends before its first pair for an empty list, not
      for a truncated one. */
  lemma TruncatedIsEmpty(data: seq<byte>)
    requires 4 <= |data| < 16 && data[0] == NV_ENCODE_XDR
    ensures Parse(data) == Ok(NvList([]))
  {
    hide ParsePairs, XdrI32;
    EndOfData(data, 12, 0, [], MAX_PAIRS);
  }

  // ---- bounds --------------------------------------------------------------

  /** A list at nesting depth `depth` that respects every cap. */
  predicate Bounded(list: NvList, depth: nat)
    decreases list
  {
    depth <= 16 && |list.pairs| <= 4096
    && forall i :: 0 <= i < |list.pairs| ==>
      |list.pairs[i].name| <= 4096 && ValueBounded(list.pairs[i].value, depth)
  }

  predicate ValueBounded(v: NvValue, depth: nat)
    decreases v
  {
    match v
    case U64(_) => true
    case Str(s) => |s| <= 65536
    case Bytes(b) => |b| <= 65536
    case Nested(list) => Bounded(list, depth + 1)
  }

  /** Whatever the buffer, an accepted list is within the caps at every level. */
  lemma ParsedIsBounded(data: seq<byte>)
    ensures Parse(data).Ok? ==> Bounded(Parse(data).value, 0)
  {
    hide ParsePairs, Bounded;
    if Parse(data).Ok? {
      NoneBounded();
      PairsBounded(data, 12, 0, [], MAX_PAIRS);
    }
  }

  lemma NoneBounded()
    ensures Bounded(NvList([]), 0)
  {
  }

  lemma {:induction false} PairsBounded(data: seq<byte>, cur: nat, depth: nat, acc: seq<NvPair>, turns: nat)
    requires depth <= MAX_DEPTH && |acc| + turns <= MAX_PAIRS && Bounded(NvList(acc), depth)
    requires ParsePairs(data, cur, depth, acc, turns).Ok?
    ensures Bounded(ParsePairs(data, cur, depth, acc, turns).value.value, depth)
    decreases MAX_DEPTH - depth, 1, turns
  {
    hide XdrI32, ReadXdrString, ReadValue, ValueBounded;
    if turns > 0 && XdrI32(data, cur) > 0 {
      var size := XdrI32(data, cur);
      var name := ReadXdrString(data, cur + 8, PairName, MAX_NAME_LEN).value;
      NameBounded(data, cur + 8, PairName, MAX_NAME_LEN);
      var value := ReadValue(data, name.next, depth).value;
      if value == None {
        PairsBounded(data, cur + size, depth, acc, turns - 1);
      } else {
        ValueIsBounded(data, name.next, depth);
        var more := acc + [NvPair(name.value, value.value)];
        assert Bounded(NvList(more), depth);
        if cur + size < |data| {
          PairsBounded(data, cur + size, depth, more, turns - 1);
        }
      }
    }
  }

  lemma NameBounded(data: seq<byte>, off: nat, field: NvField, cap: nat)
    requires ReadXdrString(data, off, field, cap).Ok?
    ensures |ReadXdrString(data, off, field, cap).value.value| <= cap
  {
  }

  lemma {:induction false} ValueIsBounded(data: seq<byte>, afterName: nat, depth: nat)
    requires depth <= MAX_DEPTH
    requires ReadValue(data, afterName, depth).Ok? && ReadValue(data, afterName, depth).value.Some?
    ensures ValueBounded(ReadValue(data, afterName, depth).value.value, depth)
    decreases MAX_DEPTH - depth, 0
  {
    hide XdrI32, ReadXdrString, ParsePairs, ReadU32;
    var dataType := XdrI32(data, afterName);
    if dataType == TYPE_STRING {
      NameBounded(data, afterName + 8, PairString, MAX_STRING_LEN);
    } else if dataType == TYPE_NVLIST {
      PairsBounded(data, afterName + 16, depth + 1, [], MAX_PAIRS);
    }
  }

  // ---- lists by hand -------------------------------------------------------

  lemma SmallWordIs(v: byte)
    ensures Word(v) == [0, 0, 0, v]
  {
    var w := Word(v);
    assert v as nat / 256 == 0;
    assert BeBytes(0, 1) == [0] && BeBytes(0, 2) == [0, 0] && BeBytes(0, 3) == [0, 0, 0];
    assert BeBytes(v as nat, 4) == BeBytes(0, 3) + [v];
  }

  /** The bytes of a list of one pair, named "n". */
  function OnePair(dataType: byte, nelem: byte, body: seq<byte>): seq<byte>
    requires |body| < 200
  {
    [1, 1, 0, 0, 0, 0, 0, 0, 0, 0, 0, 1]
    + ([0, 0, 0, 24 + |body|, 0, 0, 0, 0, 0, 0, 0, 1, 110, 0, 0, 0, 0, 0, 0, dataType, 0, 0, 0, nelem] + body)
    + [0, 0, 0, 0, 0, 0, 0, 0]
  }

  lemma OneName()
    ensures PrintString([110]) == [0, 0, 0, 1, 110, 0, 0, 0]
  {
    hide Word;
    SmallWordIs(1);
    assert Opaque([110]) == [110, 0, 0, 0];
  }

  lemma TailIs(e: Entry, dataType: byte, nelem: byte, body: seq<byte>)
    requires |body| < 200 && e.name == [110] && e.nelem == nelem
    requires if e.Pair? then TypeOf(e.value) == dataType && TreeBytes(e.value) == body
             else e.dataType == dataType && e.payload == body
    ensures EntryTail(e)
         == [0, 0, 0, 1, 110, 0, 0, 0] + [0, 0, 0, dataType] + [0, 0, 0, nelem] + body
  {
    hide TreeBytes, Word, PrintString;
    OneName();
    SmallWordIs(dataType);
    SmallWordIs(nelem);
  }

  lemma EntryIs(e: Entry, tail: seq<byte>)
    requires EntryTail(e) == tail && |tail| < 240 && e.decoded == 0
    ensures EntriesBytes([e]) == [0, 0, 0, 8 + |tail|] + [0, 0, 0, 0] + tail
  {
    hide EntryTail, Word;
    SmallWordIs(0);
    SmallWordIs(8 + |tail|);
    assert [e][1..] == [] && EntriesBytes([e][1..]) == [];
    assert EntryBytes(e) + [] == EntryBytes(e);
  }

  /** The entry those bytes are. */
  lemma OnePairParses(e: Entry, dataType: byte, nelem: byte, body: seq<byte>)
    requires |body| < 200 && e.name == [110] && e.nelem == nelem && e.decoded == 0 && Printable(e, 0)
    requires if e.Pair? then TypeOf(e.value) == dataType && TreeBytes(e.value) == body
             else e.dataType == dataType && e.payload == body
    ensures Parse(OnePair(dataType, nelem, body)) == Ok(NvList(Erase([e])))
  {
    hide TreeBytes, TreePrintable, Word, Parse, Erase, EntryTail, EntriesBytes, Printable;
    var tail := [0, 0, 0, 1, 110, 0, 0, 0] + [0, 0, 0, dataType] + [0, 0, 0, nelem] + body;
    TailIs(e, dataType, nelem, body);
    EntryIs(e, tail);
    SmallWordIs(0);
    SmallWordIs(1);
    ListIs([e], 0, 1);
    assert [0, 0, 0, 24 + |body|, 0, 0, 0, 0, 0, 0, 0, 1, 110, 0, 0, 0, 0, 0, 0, dataType, 0, 0, 0, nelem] + body
        == [0, 0, 0, 8 + |tail|] + [0, 0, 0, 0] + tail;
    assert OnePair(dataType, nelem, body) == [NV_ENCODE_XDR] + [1, 0, 0] + TreeBytes(TList([e], 0, 1)) + [];
    RoundTrip([e], 0, 1, [1, 0, 0], []);
  }

  lemma ListIs(entries: seq<Entry>, version: u32, flag: u32)
    ensures TreeBytes(TList(entries, version, flag))
         == Word(version) + Word(flag) + EntriesBytes(entries) + Terminator()
  {
  }

  /** One pair of each type, byte by byte: 42, the text "ab", three bytes under either byte
      array type, an empty list, and a type that leaves no trace. */
  lemma KnownPairs()
    ensures Parse(OnePair(8, 1, [0, 0, 0, 0, 0, 0, 0, 42])) == Ok(NvList([NvPair([110], U64(42))]))
    ensures Parse(OnePair(9, 1, [0, 0, 0, 2, 97, 98, 0, 0])) == Ok(NvList([NvPair([110], Str([97, 98]))]))
    ensures Parse(OnePair(10, 3, [1, 2, 3, 0])) == Ok(NvList([NvPair([110], Bytes([1, 2, 3]))]))
    ensures Parse(OnePair(26, 3, [1, 2, 3, 0])) == Ok(NvList([NvPair([110], Bytes([1, 2, 3]))]))
    ensures Parse(OnePair(19, 1, [0, 0, 0, 0, 0, 0, 0, 1, 0, 0, 0, 0, 0, 0, 0, 0]))
         == Ok(NvList([NvPair([110], Nested(NvList([])))]))
    ensures Parse(OnePair(5, 1, [1, 2, 3, 4])) == Ok(NvList([]))
  {
    hide Parse, OnePair, Word;
    SmallWordIs(0);
    SmallWordIs(1);
    SmallWordIs(2);
    KnownNumber();
    KnownTree(TU64(42), 8, 1, [0, 0, 0, 0, 0, 0, 0, 42]);
    assert Opaque([97, 98]) == [97, 98, 0, 0];
    KnownTree(TStr([97, 98]), 9, 1, [0, 0, 0, 2, 97, 98, 0, 0]);
    assert Opaque([1, 2, 3]) == [1, 2, 3, 0];
    KnownTree(TBytes([1, 2, 3], false), 10, 3, [1, 2, 3, 0]);
    KnownTree(TBytes([1, 2, 3], true), 26, 3, [1, 2, 3, 0]);
    assert EntriesBytes([]) == [];
    KnownTree(TList([], 0, 1), 19, 1, [0, 0, 0, 0, 0, 0, 0, 1, 0, 0, 0, 0, 0, 0, 0, 0]);
    KnownForeign();
  }

  lemma KnownNumber()
    ensures NatBytes(Big, 42, 8) == [0, 0, 0, 0, 0, 0, 0, 42]
  {
    assert BeBytes(0, 1) == [0] && BeBytes(0, 2) == [0, 0] && BeBytes(0, 3) == [0, 0, 0];
    assert BeBytes(0, 4) == [0, 0, 0, 0] && BeBytes(0, 5) == [0, 0, 0, 0, 0];
    assert BeBytes(0, 6) == [0, 0, 0, 0, 0, 0];
    assert BeBytes(0, 7) == [0, 0, 0, 0, 0, 0, 0] && BeBytes(42, 8) == BeBytes(0, 7) + [42];
  }

  lemma KnownTree(t: Tree, dataType: byte, nelem: byte, body: seq<byte>)
    requires |body| < 200 && TreePrintable(t, 0) && TypeOf(t) == dataType && TreeBytes(t) == body
    requires t.TBytes? ==> nelem as nat == |t.b|
    ensures Parse(OnePair(dataType, nelem, body)) == Ok(NvList([NvPair([110], EraseTree(t))]))
  {
    hide Parse, OnePair, TreeBytes, TreePrintable;
    var e := Pair([110], t, nelem, 0);
    EraseOne(e);
    assert |EntryTail(e)| == 16 + |body|;
    OnePairParses(e, dataType, nelem, body);
  }

  lemma KnownForeign()
    ensures Parse(OnePair(5, 1, [1, 2, 3, 4])) == Ok(NvList([]))
  {
    hide Parse, OnePair;
    var e := Foreign([110], 5, 1, [1, 2, 3, 4], 0);
    EraseOne(e);
    OnePairParses(e, 5, 1, [1, 2, 3, 4]);
  }

  /** A byte array may claim 64 KiB and is empty when the buffer ends inside it; a list may
      lie within sixteen others. */
  lemma ClaimedSizes(data: seq<byte>, at: nat, depth: nat)
    requires depth <= 16
    ensures var kind := XdrI32(data, at);
      var n := ReadU32(Big, data, at + 4);
      && (kind == 10 || kind == 26 ==>
            ReadValue(data, at, depth) == if n > 65_536 then Err(NvlistBomb(ByteArrayNelem, n, 65_536))
                                          else if at + 8 + n > |data| then Ok(Some(Bytes([])))
                                          else Ok(Some(Bytes(data[at + 8..at + 8 + n]))))
      && (kind == 19 && depth == 16 ==> ReadValue(data, at, depth) == Err(NvlistBomb(Depth, 17, 16)))
  {
    hide ParsePairs, ReadXdrString, XdrI32, ReadNat, ReadU32;
  }

  /** Another encoding byte is refused by its value, and four bytes are needed. */
  lemma BadHeaders(data: seq<byte>)
    ensures data == [] ==> Parse(data) == Err(BadNvlistEncoding(0))
    ensures data != [] && data[0] != 1 ==> Parse(data) == Err(BadNvlistEncoding(data[0]))
    ensures data != [] && data[0] == 1 && |data| < 4 ==> Parse(data) == Err(Truncated(NvlistHeader, 4, |data|))
  {
    hide ParseBody;
  }
}
