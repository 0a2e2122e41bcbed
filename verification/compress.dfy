/** Decompression dispatch (core/src/compress.rs). */
module Compress {
  import opened Bytes
  import Lzjb
  import LzjbShort
  import Zle

  datatype CompressType =
    | Inherit | On | Off | LzjbType | Empty | Gzip(level: nat) | ZleType | Lz4 | Zstd | Other(raw: nat)

  function CompressFromRaw(v: nat): CompressType {
    if v == 0 then Inherit else if v == 1 then On else if v == 2 then Off
    else if v == 3 then LzjbType else if v == 4 then Empty
    else if 5 <= v <= 13 then Gzip(v)
    else if v == 14 then ZleType else if v == 15 then Lz4 else if v == 16 then Zstd
    else Other(v)
  }

  /** The codecs of other crates. `lz4` decodes a block to at most the given size;
      `inflate` and `unzstd` read at most the given number of bytes from a stream. */
  datatype Codecs = Codecs(
    lz4: (seq<byte>, nat) -> Option<seq<byte>>,
    inflate: (seq<byte>, nat) -> Option<seq<byte>>,
    unzstd: (seq<byte>, nat) -> Option<seq<byte>>)

  /** `Vec::resize(n, 0)`. */
  function Resize(s: seq<byte>, n: nat): (r: seq<byte>)
    ensures |r| == n
  {
    if n <= |s| then s[..n] else s + Repeat(0, n - |s|)
  }

  /** The buffer `decompress_off` allocates zeroed and then copies into. */
  method DecompressOff(src: seq<byte>, lsize: nat) returns (out: array<byte>)
    ensures fresh(out) && out[..] == Resize(src, lsize)
  {
    out := new byte[lsize](_ => 0);
    var n := Min(|src|, lsize);
    for i := 0 to n
      invariant out[..i] == src[..i]
      invariant forall k :: n <= k < lsize ==> out[k] == 0
    {
      out[i] := src[i];
    }
    assert out[..] == out[..n] + out[n..];
  }

  function FromForeign(reason: Reason, out: Option<seq<byte>>): Result<seq<byte>> {
    match out
    case None => Err(DecompressFailed(reason))
    case Some(data) => Ok(data)
  }

  function Resized(r: Result<seq<byte>>, lsize: nat): Result<seq<byte>> {
    if r.Ok? then Ok(Resize(r.value, lsize)) else r
  }

  /** LZ4 behind a four-byte big-endian length. */
  function DecompressLz4(c: Codecs, src: seq<byte>, lsize: nat): Result<seq<byte>> {
    if |src| < 4 then Err(DecompressFailed(Lz4Prefix))
    else
      match Slice(src, 4, 4 + ReadU32(Big, src, 0))
      case None => Err(DecompressFailed(Lz4Length))
      case Some(block) => FromForeign(Lz4Stream, c.lz4(block, lsize))
  }

  function DecompressZstd(c: Codecs, src: seq<byte>, lsize: nat): Result<seq<byte>> {
    match Slice(src, 8, |src|)
    case None => Err(DecompressFailed(ZstdHeader))
    case Some(frame) => Resized(FromForeign(ZstdStream, c.unzstd(frame, lsize)), lsize)
  }

  function Decompress(c: Codecs, kind: CompressType, src: seq<byte>, lsize: nat): Result<seq<byte>> {
    match kind
    case Off => Ok(Resize(src, lsize))
    case LzjbType => Lzjb.Decoded(src, lsize)
    case Lz4 => DecompressLz4(c, src, lsize)
    case Gzip(_) => Resized(FromForeign(GzipStream, c.inflate(src, lsize)), lsize)
    case On => Resized(FromForeign(GzipStream, c.inflate(src, lsize)), lsize)
    case ZleType => Zle.Decoded(src, lsize)
    case Zstd => DecompressZstd(c, src, lsize)
    case Empty => Ok(Repeat(0, lsize))
    case Inherit => Err(UnsupportedCompression(0))
    case Other(v) => Err(UnsupportedCompression(v))
  }

  /** Every codec but LZ4 delivers exactly the requested size; LZ4's length is whatever
      the foreign decoder returned, since nothing checks it. */
  lemma DecompressedLength(c: Codecs, kind: CompressType, src: seq<byte>, lsize: nat)
    requires Decompress(c, kind, src, lsize).Ok?
    ensures !kind.Lz4? ==> |Decompress(c, kind, src, lsize).value| == lsize
    ensures kind.Lz4? ==> var n := ReadU32(Big, src, 0);
      4 + n <= |src| && c.lz4(src[4..4 + n], lsize) == Some(Decompress(c, kind, src, lsize).value)
  {
    if kind.LzjbType? { Lzjb.DecodedPrefix(src, lsize, lsize); }
    if kind.ZleType? { Zle.DecodedPrefix(src, lsize, lsize); }
  }

  /** A foreign LZ4 decoder that delivers nothing. */
  function EmptyLz4(): Codecs {
    Codecs((src: seq<byte>, n: nat) => Some([]), (src: seq<byte>, n: nat) => None, (src: seq<byte>, n: nat) => None)
  }

  /** Its falling short of the size goes unnoticed. */
  lemma Lz4FallsShort(lsize: nat)
    requires lsize > 0
    ensures Decompress(EmptyLz4(), Lz4, Repeat(0, 4), lsize) == Ok([])
  {
    Pow256Values();
    ReadPrinted(Big, Repeat(0, 4), 0, 0, 4);
  }

  // ---- output that falls short ---------------------------------------------

  /** Whatever a foreign gzip or zstd decoder delivers, short of the size or beyond it, is
      cut or padded with zeros, never refused; and so is an uncompressed block. */
  lemma ForeignOutputIsResized(c: Codecs, src: seq<byte>, lsize: nat, data: seq<byte>, level: nat)
    ensures c.inflate(src, lsize) == Some(data) ==>
      Decompress(c, Gzip(level), src, lsize) == Decompress(c, On, src, lsize) == Ok(Resize(data, lsize))
    ensures |src| >= 8 && c.unzstd(src[8..], lsize) == Some(data) ==>
      Decompress(c, Zstd, src, lsize) == Ok(Resize(data, lsize))
    ensures Decompress(c, Off, src, lsize) == Ok(Resize(src, lsize))
  {
    assert |src| >= 8 ==> src[8..|src|] == src[8..];
  }

  /** The two codecs of this repository refuse: they succeed exactly on the buffers that
      begin with an encoding of at least the size. */
  lemma OwnCodecsRefuse(c: Codecs, src: seq<byte>, lsize: nat)
    ensures Decompress(c, LzjbType, src, lsize).Ok?
       <==> exists items: seq<Lzjb.Item> :: Lzjb.Encodes(src, 0, 8, items) && Lzjb.Valid(items, 0)
              && lsize <= |Lzjb.Expand(items, [])|
    ensures Decompress(c, ZleType, src, lsize).Ok?
       <==> exists runs: seq<Zle.Run> :: Zle.Valid(runs) && Zle.Print(runs) <= src && lsize <= |Zle.Meaning(runs)|
  {
    hide Lzjb.Encodes, Lzjb.Valid, Lzjb.Expand, Lzjb.Decoded, Zle.Valid, Zle.Print, Zle.Meaning, Zle.Decoded;
    Lzjb.SucceedsExactly(src, lsize);
    Zle.SucceedsExactly(src, lsize);
  }

  /** So a whole stream of theirs that means less than the size is an error. */
  lemma OwnShortStreamsFail(c: Codecs, items: seq<Lzjb.Item>, runs: seq<Zle.Run>, lsize: nat)
    ensures Lzjb.Printable(items) && Lzjb.Valid(items, 0) && |Lzjb.Expand(items, [])| < lsize ==>
      Decompress(c, LzjbType, Lzjb.Pack(items), lsize).Err?
    ensures Zle.Valid(runs) && |Zle.Meaning(runs)| < lsize ==>
      Decompress(c, ZleType, Zle.Print(runs), lsize).Err?
  {
    hide Lzjb.Valid, Lzjb.Expand, Lzjb.Pack, Lzjb.DecodeFrom, Zle.Valid, Zle.Print, Zle.Meaning, Zle.DecodeFrom;
    if Lzjb.Printable(items) && Lzjb.Valid(items, 0) && |Lzjb.Expand(items, [])| < lsize {
      LzjbShort.ShortRefused(items, 0, [], lsize);
    }
    if Zle.Valid(runs) && |Zle.Meaning(runs)| < lsize {
      assert Zle.Print(runs)[0..] == Zle.Print(runs);
      Zle.ShortRefused(runs, Zle.Print(runs), 0, [], lsize);
    }
  }

  // ---- the codec of each number --------------------------------------------

  /** A foreign outcome as the source reports it: cut or padded to the size, or the failure. */
  function Padded(out: Option<seq<byte>>, lsize: nat, reason: Reason): Result<seq<byte>> {
    match out
    case None => Err(DecompressFailed(reason))
    case Some(data) => Ok(data[..Min(|data|, lsize)] + Repeat<byte>(0, lsize - Min(|data|, lsize)))
  }

  lemma ResizeIs(data: seq<byte>, lsize: nat)
    ensures Resize(data, lsize) == data[..Min(|data|, lsize)] + Repeat<byte>(0, lsize - Min(|data|, lsize))
  {
  }

  /** Which codec each stored number stands for, and what it does with the bytes; a number
      without one is refused by that number. */
  lemma CodecByNumber(c: Codecs, v: nat, src: seq<byte>, lsize: nat)
    ensures var r := Decompress(c, CompressFromRaw(v), src, lsize);
      if v == 2 then r == Padded(Some(src), lsize, GzipStream)
      else if v == 3 then r == Lzjb.Decoded(src, lsize)
      else if v == 4 then r == Ok(Repeat<byte>(0, lsize))
      else if v == 1 || 5 <= v <= 13 then r == Padded(c.inflate(src, lsize), lsize, GzipStream)
      else if v == 14 then r == Zle.Decoded(src, lsize)
      else if v == 15 then (r.Ok? <==> Lz4Succeeds(c, src, lsize))
      else if v == 16 then
        r == if |src| < 8 then Err(DecompressFailed(ZstdHeader))
             else Padded(c.unzstd(src[8..], lsize), lsize, ZstdStream)
      else r == Err(UnsupportedCompression(v))
  {
    hide Lzjb.Decoded, Zle.Decoded, ReadU32;
    ResizeIs(src, lsize);
    if c.inflate(src, lsize).Some? { ResizeIs(c.inflate(src, lsize).value, lsize); }
    if |src| >= 8 {
      assert src[8..|src|] == src[8..];
      if c.unzstd(src[8..], lsize).Some? { ResizeIs(c.unzstd(src[8..], lsize).value, lsize); }
    }
  }

  /** An LZ4 block succeeds exactly when the bytes after its four-byte big-endian length
      hold that many, and the foreign decoder takes those. */
  predicate Lz4Succeeds(c: Codecs, src: seq<byte>, lsize: nat) {
    |src| >= 4 && 4 + ReadU32(Big, src, 0) <= |src| && c.lz4(src[4..4 + ReadU32(Big, src, 0)], lsize).Some?
  }

  /** Then the output is that decoder's. */
  lemma Lz4Output(c: Codecs, src: seq<byte>, lsize: nat)
    requires Lz4Succeeds(c, src, lsize)
    ensures Decompress(c, CompressFromRaw(15), src, lsize) == Ok(c.lz4(src[4..4 + ReadU32(Big, src, 0)], lsize).value)
  {
    hide ReadU32;
  }

  // ---- streams by hand -----------------------------------------------------

  /** Two literals and a three-byte match two back; four literals; a run of zeros and one
      of literals. */
  lemma KnownStreams(c: Codecs)
    ensures Decompress(c, LzjbType, [4, 65, 66, 0, 2], 5) == Ok([65, 66, 65, 66, 65])
    ensures Decompress(c, LzjbType, [0, 65, 66, 67, 68], 4) == Ok([65, 66, 67, 68])
    ensures Decompress(c, ZleType, [0x80], 64) == Ok(Repeat<byte>(0, 64))
    ensures Decompress(c, ZleType, [0x80], 65).Err?
    ensures Decompress(c, ZleType, [2, 7, 8, 9], 3) == Ok([7, 8, 9])
  {
    hide Lzjb.DecodeFrom, Zle.DecodeFrom;
    Lzjb.KnownMatch();
    Lzjb.KnownLiterals();
    Zle.KnownRuns();
  }
}
