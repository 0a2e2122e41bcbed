/** What the nvlist reader makes of a printed list that is cut off at any byte: exactly
    which cuts it reports as truncated, and what it returns for all others. */
module NvlistCut {
  import opened Bytes
  import opened Nvlist

  // ---- where a cut falls ---------------------------------------------------

  /** Where the type word of an entry that starts at `s` lies. */
  function TypeAt(e: Entry, s: nat): nat { s + 12 + Padded(|e.name|) }

  /** The cut `c` falls in the text of a name or of a string value, or in the length word
      before it, in a list whose entries start at `s`. */
  predicate CutsText(entries: seq<Entry>, s: nat, c: nat)
    decreases entries
  {
    entries != [] &&
    (CutsEntry(entries[0], s, c) || CutsText(entries[1..], s + |EntryBytes(entries[0])|, c))
  }

  predicate CutsEntry(e: Entry, s: nat, c: nat)
    decreases e
  {
    s + 4 <= c < s + 12 + |e.name| || (e.Pair? && CutsTree(e.value, TypeAt(e, s), c))
  }

  predicate CutsTree(v: Tree, t: nat, c: nat)
    decreases v
  {
    match v
    case TStr(s) => t + 4 <= c < t + 12 + |s|
    case TList(entries, _, _) => CutsText(entries, t + 16, c)
    case TU64(_) => false
    case TBytes(_, _) => false
  }

  // ---- what is left of a list ----------------------------------------------

  /** The pairs before the cut, and what the cut leaves of the entry it falls in. */
  function CutPairs(entries: seq<Entry>, s: nat, c: nat): seq<NvPair>
    decreases entries
  {
    if entries == [] then []
    else
      var next := s + |EntryBytes(entries[0])|;
      if next <= c then Erase([entries[0]]) + CutPairs(entries[1..], next, c)
      else CutEntry(entries[0], s, c)
  }

  /** An entry without its whole type word is dropped. */
  function CutEntry(e: Entry, s: nat, c: nat): seq<NvPair>
    decreases e
  {
    var t := TypeAt(e, s);
    if e.Foreign? || c < t + 4 then [] else [NvPair(e.name, CutTree(e.value, t, c))]
  }

  /** A cut number reads as 0, a cut byte array as empty, a cut list as what is left of it. */
  function CutTree(v: Tree, t: nat, c: nat): NvValue
    decreases v
  {
    match v
    case TU64(_) => U64(0)
    case TStr(s) => Str(s)
    case TBytes(b, _) => Bytes(if c < t + 8 + |b| then [] else b)
    case TList(entries, _, _) => Nested(NvList(CutPairs(entries, t + 16, c)))
  }

  // ---- data that ends early ------------------------------------------------

  /** From position `off` on, `data` holds a beginning of `bs`, as far as it goes. */
  predicate Begins(data: seq<byte>, off: nat, bs: seq<byte>) {
    off <= |data| ==> data[off..] <= bs
  }

  lemma BeginsSplit(data: seq<byte>, off: nat, a: seq<byte>, b: seq<byte>)
    requires Begins(data, off, a + b)
    ensures off + |a| <= |data| ==> At(data, off, a)
    ensures off + |a| >= |data| ==> Begins(data, off, a)
    ensures Begins(data, off + |a|, b)
  {
    if off + |a| <= |data| {
      var x := data[off..];
      assert x == (a + b)[..|x|];
      assert data[off..off + |a|] == x[..|a|] == a;
      assert data[off + |a|..] == x[|a|..] == b[..|x| - |a|];
    } else if off <= |data| {
      assert data[off..] == (a + b)[..|data| - off] == a[..|data| - off];
    }
    if off + |a| == |data| {
      assert data[off..] == a;
    }
  }

  /** A word reads as itself if it is all there, and as 0 otherwise. */
  lemma BeginsWord(data: seq<byte>, off: nat, v: u32, rest: seq<byte>)
    requires Begins(data, off, Word(v) + rest)
    ensures off + 4 <= |data| ==> At(data, off, Word(v)) && ReadU32(Big, data, off) == v
    ensures off + 4 <= |data| && v < 0x8000_0000 ==> XdrI32(data, off) == v
    ensures off + 4 > |data| ==> ReadU32(Big, data, off) == 0 && XdrI32(data, off) == 0
    ensures Begins(data, off + 4, rest)
  {
    BeginsSplit(data, off, Word(v), rest);
    if off + 4 <= |data| { ReadWord(data, off, v); }
  }

  /** A printed string is read back if its bytes are all there, and refused otherwise. */
  lemma BeginsString(data: seq<byte>, off: nat, s: seq<byte>, field: NvField, cap: nat, rest: seq<byte>)
    requires |s| <= cap < 0x8000_0000 && Begins(data, off, PrintString(s) + rest)
    ensures var r := ReadXdrString(data, off, field, cap);
      if |data| < off + 4 + |s| then r.Err? && r.error.Truncated?
      else r == Ok(Parsed(s, off + |PrintString(s)|))
    ensures Begins(data, off + |PrintString(s)|, rest)
  {
    hide Begins, At, XdrI32, Word;
    var pad := Repeat(0, Padded(|s|) - |s|);
    BeginsSplit(data, off, PrintString(s), rest);
    assert PrintString(s) + rest == Word(|s|) + (s + (pad + rest));
    BeginsWord(data, off, |s|, s + (pad + rest));
    BeginsSplit(data, off + 4, s, pad + rest);
    if |data| >= off + 4 + |s| { SliceAt(data, off + 4, s); }
  }

  lemma SliceAt(data: seq<byte>, off: nat, bytes: seq<byte>)
    requires At(data, off, bytes)
    ensures Slice(data, off, off + |bytes|) == Some(bytes)
  {
  }

  // ---- a cut value ---------------------------------------------------------

  /** The outcome of a reader on a cut: refused as truncated, or this value. */
  predicate Outcome<T(==)>(r: Result<T>, refused: bool, value: T) {
    if refused then r.Err? && r.error.Truncated? else r == Ok(value)
  }

  lemma {:induction false} CutValue(data: seq<byte>, t: nat, v: Tree, nelem: u32, depth: nat, rest: seq<byte>)
    requires depth <= MAX_DEPTH && TreePrintable(v, depth) && (v.TBytes? ==> nelem == |v.b|)
    requires Begins(data, t, Word(TypeOf(v)) + (Word(nelem) + (TreeBytes(v) + rest)))
    requires t + 4 <= |data| < t + 8 + |TreeBytes(v)|
    ensures Outcome(ReadValue(data, t, depth), CutsTree(v, t, |data|), Some(CutTree(v, t, |data|)))
    decreases v, 1
  {
    hide ParsePairs, ReadXdrString, XdrI32, EntriesBytes, Begins, At, ReadU32, CutPairs, CutsText, Word;
    BeginsWord(data, t, TypeOf(v), Word(nelem) + (TreeBytes(v) + rest));
    BeginsWord(data, t + 4, nelem, TreeBytes(v) + rest);
    match v
    case TU64(_) =>
    case TStr(s) =>
      BeginsString(data, t + 8, s, PairString, MAX_STRING_LEN, rest);
    case TBytes(b, _) =>
      BeginsSplit(data, t + 8, Opaque(b), rest);
      if |data| >= t + 8 + |b| { CutBytes(data, t + 8, b); }
    case TList(_, _, _) =>
      CutListValue(data, t, v, depth, rest);
  }

  lemma {:induction false} CutListValue(data: seq<byte>, t: nat, v: Tree, depth: nat, rest: seq<byte>)
    requires depth <= MAX_DEPTH && v.TList? && TreePrintable(v, depth) && XdrI32(data, t) == TYPE_NVLIST
    requires Begins(data, t + 8, TreeBytes(v) + rest) && |data| < t + 8 + |TreeBytes(v)|
    ensures Outcome(ReadValue(data, t, depth), CutsTree(v, t, |data|), Some(CutTree(v, t, |data|)))
    decreases v, 0
  {
    hide ParsePairs, XdrI32, EntriesBytes, Begins, CutPairs, CutsText, Word;
    var entries := v.entries;
    var body := EntriesBytes(entries) + (Terminator() + rest);
    assert TreeBytes(v) + rest == Word(v.version) + (Word(v.flag) + body);
    BeginsWord(data, t + 8, v.version, Word(v.flag) + body);
    BeginsWord(data, t + 12, v.flag, body);
    CutWalk(data, t + 16, entries, depth + 1, [], MAX_PAIRS, rest);
    assert [] + CutPairs(entries, t + 16, |data|) == CutPairs(entries, t + 16, |data|);
  }

  lemma CutBytes(data: seq<byte>, off: nat, b: seq<byte>)
    requires Begins(data, off, Opaque(b)) && off + |b| <= |data|
    ensures Slice(data, off, off + |b|) == Some(b)
  {
    BeginsSplit(data, off, b, Repeat(0, Padded(|b|) - |b|));
  }

  // ---- a cut entry ---------------------------------------------------------

  /** Everything of an entry after its type and count words. */
  function Body(e: Entry): seq<byte> { if e.Pair? then TreeBytes(e.value) else e.payload }

  function Kind(e: Entry): u32 { if e.Pair? then TypeOf(e.value) else e.dataType }

  lemma EntryLayout(e: Entry, depth: nat, rest: seq<byte>)
    requires Printable(e, depth)
    ensures EntryBytes(e) + rest
         == Word(8 + |EntryTail(e)|) + (Word(e.decoded) + (PrintString(e.name)
            + (Word(Kind(e)) + (Word(e.nelem) + (Body(e) + rest)))))
    ensures |EntryBytes(e)| == 8 + |EntryTail(e)| == 12 + Padded(|e.name|) + 8 + |Body(e)|
  {
    hide TreeBytes, TreePrintable, Word, PrintString;
    assert EntryTail(e) == PrintString(e.name) + Word(Kind(e)) + Word(e.nelem) + Body(e);
  }

  /** The loop body when one of its reads fails. */
  lemma ParseFails(data: seq<byte>, cur: nat, depth: nat, acc: seq<NvPair>, turns: nat)
    requires depth <= MAX_DEPTH && turns > 0 && XdrI32(data, cur) > 0
    ensures var name := ReadXdrString(data, cur + 8, PairName, MAX_NAME_LEN);
      && (name.Err? ==> ParsePairs(data, cur, depth, acc, turns) == Err(name.error))
      && (name.Ok? && ReadValue(data, name.value.next, depth).Err?
          ==> ParsePairs(data, cur, depth, acc, turns) == Err(ReadValue(data, name.value.next, depth).error))
  {
    hide XdrI32, ReadXdrString, ReadValue;
  }

  lemma ReadNothing(data: seq<byte>, t: nat, depth: nat)
    requires depth <= MAX_DEPTH && XdrI32(data, t) == 0
    ensures ReadValue(data, t, depth) == Ok(None)
  {
    hide XdrI32;
  }

  /** What the pair loop makes of a list that is cut off. */
  predicate Remains(r: Result<Parsed<NvList>>, refused: bool, pairs: seq<NvPair>) {
    if refused then r.Err? && r.error.Truncated? else r.Ok? && r.value.value == NvList(pairs)
  }

  /** The turn of the pair loop that meets the cut. */
  lemma {:induction false} CutTurn(
      data: seq<byte>, s: nat, e: Entry, depth: nat, acc: seq<NvPair>, turns: nat, rest: seq<byte>)
    requires depth <= MAX_DEPTH && turns > 1 && Printable(e, depth)
    requires Begins(data, s, EntryBytes(e) + rest) && s + 4 <= |data| < s + |EntryBytes(e)|
    ensures Remains(ParsePairs(data, s, depth, acc, turns),
                    CutsEntry(e, s, |data|), acc + CutEntry(e, s, |data|))
    decreases e
  {
    hide ParsePairs, ReadValue, ReadXdrString, XdrI32, EntryBytes, EntryTail, TreeBytes, TreePrintable;
    hide Begins, At, CutsTree, CutTree, Word, PrintString;
    EntryLayout(e, depth, rest);
    var size, t := 8 + |EntryTail(e)|, TypeAt(e, s);
    var value := Word(e.nelem) + (Body(e) + rest);
    BeginsWord(data, s, size, Word(e.decoded) + (PrintString(e.name) + (Word(Kind(e)) + value)));
    BeginsWord(data, s + 4, e.decoded, PrintString(e.name) + (Word(Kind(e)) + value));
    BeginsString(data, s + 8, e.name, PairName, MAX_NAME_LEN, Word(Kind(e)) + value);
    assert |PrintString(e.name)| == 4 + Padded(|e.name|);
    ParseFails(data, s, depth, acc, turns);
    if |data| >= s + 12 + |e.name| {
      BeginsWord(data, t, Kind(e), value);
      CutTypeWord(data, s, e, depth, acc, turns, rest);
    }
  }

  /** The same, once the name has been read. */
  lemma {:induction false} CutTypeWord(
      data: seq<byte>, s: nat, e: Entry, depth: nat, acc: seq<NvPair>, turns: nat, rest: seq<byte>)
    requires depth <= MAX_DEPTH && turns > 1 && Printable(e, depth)
    requires XdrI32(data, s) == |EntryBytes(e)| == 12 + Padded(|e.name|) + 8 + |Body(e)|
    requires s + 12 + |e.name| <= |data| < s + |EntryBytes(e)|
    requires ReadXdrString(data, s + 8, PairName, MAX_NAME_LEN) == Ok(Parsed(e.name, TypeAt(e, s)))
    requires Begins(data, TypeAt(e, s), Word(Kind(e)) + (Word(e.nelem) + (Body(e) + rest)))
    ensures Remains(ParsePairs(data, s, depth, acc, turns),
                    CutsEntry(e, s, |data|), acc + CutEntry(e, s, |data|))
    decreases e, 0
  {
    hide ParsePairs, ReadValue, ReadXdrString, XdrI32, EntryBytes, EntryTail, TreeBytes, TreePrintable;
    hide Begins, At, CutsTree, CutTree, Word;
    var size, t := |EntryBytes(e)|, TypeAt(e, s);
    BeginsWord(data, t, Kind(e), Word(e.nelem) + (Body(e) + rest));
    if |data| < t + 4 || e.Foreign? {
      if |data| < t + 4 { ReadNothing(data, t, depth); } else { SkipUnconsumed(data, t, e.dataType, depth); }
      if e.Pair? && CutsTree(e.value, t, |data|) { TreeInside(e.value, t, |data|, depth); }
      ParseStep(data, s, depth, acc, turns, size, e.name, t, None);
      EndOfData(data, s + size, depth, acc, turns - 1);
      assert acc + [] == acc;
    } else {
      CutValue(data, t, e.value, e.nelem, depth, rest);
      ParseFails(data, s, depth, acc, turns);
      if !CutsTree(e.value, t, |data|) {
        ParseStep(data, s, depth, acc, turns, size, e.name, t, Some(CutTree(e.value, t, |data|)));
      }
    }
  }

  // ---- a cut list ----------------------------------------------------------

  /** A cut in a list's text lies inside the list. */
  lemma {:induction false} TextInside(entries: seq<Entry>, s: nat, c: nat, depth: nat)
    requires AllPrintable(entries, depth) && CutsText(entries, s, c)
    ensures s + 4 <= c < s + |EntriesBytes(entries)|
    decreases entries
  {
    hide EntryBytes, CutsEntry, Printable;
    if CutsEntry(entries[0], s, c) {
      EntryInside(entries[0], s, c, depth);
    } else {
      TextInside(entries[1..], s + |EntryBytes(entries[0])|, c, depth);
    }
  }

  lemma {:induction false} EntryInside(e: Entry, s: nat, c: nat, depth: nat)
    requires Printable(e, depth) && CutsEntry(e, s, c)
    ensures s + 4 <= c < s + |EntryBytes(e)|
    decreases e
  {
    hide EntryBytes, EntryTail, TreeBytes, CutsTree, TreePrintable;
    EntryLayout(e, depth, []);
    if !(s + 4 <= c < s + 12 + |e.name|) {
      TreeInside(e.value, TypeAt(e, s), c, depth);
    }
  }

  lemma {:induction false} TreeInside(v: Tree, t: nat, c: nat, depth: nat)
    requires TreePrintable(v, depth) && CutsTree(v, t, c)
    ensures t + 4 <= c < t + 8 + |TreeBytes(v)|
    decreases v
  {
    hide CutsText, EntriesBytes;
    if v.TList? {
      TextInside(v.entries, t + 16, c, depth + 1);
    }
  }

  /** A cut before a list's second word leaves nothing of it, and is no cut in its text. */
  lemma CutBefore(entries: seq<Entry>, s: nat, c: nat, depth: nat)
    requires AllPrintable(entries, depth) && c < s + 4
    ensures !CutsText(entries, s, c) && CutPairs(entries, s, c) == []
  {
    hide EntryBytes, CutsText, CutsTree, CutTree, Printable, EntryTail;
    if CutsText(entries, s, c) { TextInside(entries, s, c, depth); }
    if entries != [] { EntryTooLong(entries[0], depth); }
  }

  lemma EntryTooLong(e: Entry, depth: nat)
    requires Printable(e, depth)
    ensures |EntryBytes(e)| >= 8
  {
    hide EntryTail, TreePrintable;
  }

  /** One unfolding of the three functions of a cut. */
  lemma CutHead(entries: seq<Entry>, s: nat, c: nat, depth: nat)
    requires AllPrintable(entries, depth) && entries != []
    ensures var e, next := entries[0], s + |EntryBytes(entries[0])|;
      if next <= c then
        !CutsEntry(e, s, c) && CutsText(entries, s, c) == CutsText(entries[1..], next, c)
        && CutPairs(entries, s, c) == Erase([e]) + CutPairs(entries[1..], next, c)
      else
        CutsText(entries, s, c) == CutsEntry(e, s, c) && CutPairs(entries, s, c) == CutEntry(e, s, c)
  {
    hide EntryBytes, CutsEntry, CutEntry, Printable, Erase;
    var e, next := entries[0], s + |EntryBytes(entries[0])|;
    if CutsEntry(e, s, c) { EntryInside(e, s, c, depth); }
    if next > c { CutBefore(entries[1..], next, c, depth); }
  }

  /** The pair loop on a cut list: refused exactly when the cut is in its text. */
  lemma {:induction false} CutWalk(
      data: seq<byte>, s: nat, entries: seq<Entry>, depth: nat, acc: seq<NvPair>, turns: nat, rest: seq<byte>)
    requires depth <= MAX_DEPTH && |entries| < turns && AllPrintable(entries, depth)
    requires Begins(data, s, EntriesBytes(entries) + (Terminator() + rest))
    requires |data| < s + |EntriesBytes(entries)| + 8
    ensures Remains(ParsePairs(data, s, depth, acc, turns),
                    CutsText(entries, s, |data|), acc + CutPairs(entries, s, |data|))
    decreases entries, 1
  {
    hide ParsePairs, EntriesBytes, EntryBytes, Begins, At, CutsText, CutPairs, CutsEntry, CutEntry, XdrI32, Erase;
    hide AllPrintable, Printable;
    if |data| < s + 4 || entries == [] {
      CutAtEnd(data, s, entries, depth, acc, turns, rest);
    } else {
      var e, after := entries[0], EntriesBytes(entries[1..]) + (Terminator() + rest);
      EntriesHead(entries, depth);
      Reassociate(EntryBytes(e), EntriesBytes(entries[1..]), Terminator() + rest);
      BeginsSplit(data, s, EntryBytes(e), after);
      CutHead(entries, s, |data|, depth);
      var next, more := s + |EntryBytes(e)|, acc + Erase([e]);
      if next > |data| {
        CutTurn(data, s, e, depth, acc, turns, after);
      } else {
        WalkEntry(data, s, e, depth, acc, turns);
        Reassociate(acc, Erase([e]), CutPairs(entries[1..], next, |data|));
        if e.Pair? && next == |data| {
          CutBefore(entries[1..], next, |data|, depth);
          assert more + [] == more;
        } else {
          CutWalk(data, next, entries[1..], depth, more, turns - 1, rest);
        }
      }
    }
  }

  lemma EntriesHead(entries: seq<Entry>, depth: nat)
    requires entries != [] && AllPrintable(entries, depth)
    ensures EntriesBytes(entries) == EntryBytes(entries[0]) + EntriesBytes(entries[1..])
    ensures Printable(entries[0], depth) && AllPrintable(entries[1..], depth)
  {
    hide EntryBytes, Printable;
  }

  lemma CutAtEnd(
      data: seq<byte>, s: nat, entries: seq<Entry>, depth: nat, acc: seq<NvPair>, turns: nat, rest: seq<byte>)
    requires depth <= MAX_DEPTH && turns > 0 && AllPrintable(entries, depth)
    requires Begins(data, s, EntriesBytes(entries) + (Terminator() + rest))
    requires |data| < s + 4 || entries == []
    ensures Remains(ParsePairs(data, s, depth, acc, turns),
                    CutsText(entries, s, |data|), acc + CutPairs(entries, s, |data|))
  {
    hide Begins, At, XdrI32, Printable;
    assert acc + [] == acc;
    if |data| < s + 4 {
      hide ParsePairs, CutsText, CutPairs, EntriesBytes;
      CutBefore(entries, s, |data|, depth);
      EndOfData(data, s, depth, acc, turns);
    } else {
      assert [] + (Terminator() + rest) == Word(0) + (Word(0) + rest);
      BeginsWord(data, s, 0, Word(0) + rest);
    }
  }

  // ---- the whole list ------------------------------------------------------

  function Printed(entries: seq<Entry>, version: u32, flag: u32, header: seq<byte>): seq<byte> {
    [NV_ENCODE_XDR] + header + TreeBytes(TList(entries, version, flag))
  }

  /** A printed list cut off at any byte after its header is refused if and only if the cut
      is in the text of a name or a string, at any depth; then the error says truncated.
      Every other cut is accepted, with the pairs before it and a remnant of the pair it
      falls in. */
  lemma CutExactly(entries: seq<Entry>, version: u32, flag: u32, header: seq<byte>, c: nat)
    requires |header| == 3 && |entries| < 4096 && AllPrintable(entries, 0)
    requires 4 <= c < |Printed(entries, version, flag, header)|
    ensures var r := Parse(Printed(entries, version, flag, header)[..c]);
      && (r.Err? <==> CutsText(entries, 12, c))
      && (r.Err? ==> r.error.Truncated?)
      && (r.Ok? ==> r.value == NvList(CutPairs(entries, 12, c)))
  {
    hide ParsePairs, EntriesBytes, CutsText, CutPairs, AllPrintable, Word;
    var whole := Printed(entries, version, flag, header);
    var data, body := whole[..c], EntriesBytes(entries) + (Terminator() + []);
    assert whole == ([NV_ENCODE_XDR] + header + Word(version) + Word(flag)) + body;
    assert data[0] == whole[0] == NV_ENCODE_XDR;
    if c >= 12 { assert data[12..] == body[..c - 12]; }
    CutWalk(data, 12, entries, 0, [], MAX_PAIRS, []);
    assert [] + CutPairs(entries, 12, c) == CutPairs(entries, 12, c);
  }

  // ---- two cuts ------------------------------------------------------------

  lemma {:induction false} EntriesAppend(a: seq<Entry>, b: seq<Entry>, depth: nat)
    requires AllPrintable(a, depth)
    ensures EntriesBytes(a + b) == EntriesBytes(a) + EntriesBytes(b)
    ensures AllPrintable(b, depth) ==> AllPrintable(a + b, depth)
    decreases |a|
  {
    hide EntryBytes, Printable;
    if a == [] {
      assert a + b == b;
    } else {
      SplitHead(a, b);
      EntriesAppend(a[1..], b, depth);
      Reassociate(EntryBytes(a[0]), EntriesBytes(a[1..]), EntriesBytes(b));
    }
  }

  /** Whole entries before the cut are kept whole. */
  lemma {:induction false} CutAppend(a: seq<Entry>, b: seq<Entry>, s: nat, c: nat, depth: nat)
    requires AllPrintable(a, depth) && AllPrintable(b, depth) && c >= s + |EntriesBytes(a)|
    ensures CutPairs(a + b, s, c) == Erase(a) + CutPairs(b, s + |EntriesBytes(a)|, c)
    ensures CutsText(a + b, s, c) == CutsText(b, s + |EntriesBytes(a)|, c)
    decreases |a|
  {
    hide EntryBytes, Printable, Erase, CutsText, CutPairs;
    if a == [] {
      NothingErased(a);
      assert a + b == b && [] + CutPairs(b, s, c) == CutPairs(b, s, c);
    } else {
      SplitHead(a, b);
      EntriesAppend(a, b, depth);
      CutHead(a + b, s, c, depth);
      CutAppend(a[1..], b, s + |EntryBytes(a[0])|, c, depth);
      EraseHead(a);
      Reassociate(Erase([a[0]]), Erase(a[1..]), CutPairs(b, s + |EntriesBytes(a)|, c));
    }
  }

  lemma NothingErased(entries: seq<Entry>)
    requires entries == []
    ensures Erase(entries) == []
  {
  }

  /** A list cut off at a pair boundary still gives every pair before the cut. */
  lemma SalvagedAtBoundary(
      before: seq<Entry>, after: seq<Entry>, version: u32, flag: u32, header: seq<byte>)
    requires |header| == 3 && |before + after| < MAX_PAIRS && AllPrintable(before, 0) && AllPrintable(after, 0)
    ensures var whole := Printed(before + after, version, flag, header); var c := 12 + |EntriesBytes(before)|;
      c <= |whole| && Parse(whole[..c]) == Ok(NvList(Erase(before)))
  {
    hide EntriesBytes, CutsText, CutPairs, AllPrintable, Erase, Parse;
    EntriesAppend(before, after, 0);
    var c := 12 + |EntriesBytes(before)|;
    CutExactly(before + after, version, flag, header, c);
    CutAppend(before, after, 12, c, 0);
    CutBefore(after, c, c, 0);
    assert Erase(before) + [] == Erase(before);
  }

  /** A list cut inside its last number, in its count word or its eight bytes, is accepted
      with that name bound to 0, whatever the number was. */
  lemma CutNumberIsZero(
      before: seq<Entry>, name: seq<byte>, v: u64, nelem: u32, decoded: u32, version: u32, flag: u32,
      header: seq<byte>, c: nat)
    requires |header| == 3 && |before| + 1 < MAX_PAIRS && AllPrintable(before, 0) && |name| <= MAX_NAME_LEN
    requires var t := 12 + |EntriesBytes(before)| + 12 + Padded(|name|); t + 4 <= c < t + 16
    ensures var whole := Printed(before + [Pair(name, TU64(v), nelem, decoded)], version, flag, header);
      c < |whole| && Parse(whole[..c]) == Ok(NvList(Erase(before) + [NvPair(name, U64(0))]))
  {
    hide EntriesBytes, CutsText, CutPairs, AllPrintable, Erase, Parse;
    var e := Pair(name, TU64(v), nelem, decoded);
    LastNumber(e, 12 + |EntriesBytes(before)|, c);
    EntriesAppend(before, [e], 0);
    CutExactly(before + [e], version, flag, header, c);
    CutAppend(before, [e], 12, c, 0);
  }

  lemma LastNumber(e: Entry, s: nat, c: nat)
    requires e.Pair? && e.value.TU64? && |e.name| <= MAX_NAME_LEN
    requires TypeAt(e, s) + 4 <= c < TypeAt(e, s) + 16
    ensures AllPrintable([e], 0) && |EntriesBytes([e])| == TypeAt(e, s) + 16 - s
    ensures !CutsText([e], s, c) && CutPairs([e], s, c) == [NvPair(e.name, U64(0))]
  {
    hide Word, PrintString;
    var n := e.name;
    assert EntryTail(e) == PrintString(n) + Word(TYPE_UINT64) + Word(e.nelem) + NatBytes(Big, e.value.v, 8);
    assert |PrintString(n)| == 4 + Padded(|n|);
    assert Printable(e, 0);
    NumberAlone(e, s, c);
  }

  lemma NumberAlone(e: Entry, s: nat, c: nat)
    requires e.Pair? && e.value.TU64? && Printable(e, 0)
    requires TypeAt(e, s) + 4 <= c < TypeAt(e, s) + 16
    ensures AllPrintable([e], 0) && |EntriesBytes([e])| == TypeAt(e, s) + 16 - s
    ensures !CutsText([e], s, c) && CutPairs([e], s, c) == [NvPair(e.name, U64(0))]
  {
    hide EntryBytes, EntryTail, Word;
    EntryLayout(e, 0, []);
    assert [e][1..] == [];
    CutHead([e], s, c, 0);
    assert EntriesBytes([e][1..]) == [];
  }
}
