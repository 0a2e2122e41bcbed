/** ZLE decompression (core/src/compress.rs, decompress_zle), with the control byte
    split exactly where the code splits it: below 0x80 a run of ctrl + 1 literal
    bytes, from 0x80 on a run of ctrl - 0x80 + 64 zeros. */
module Zle {
  import opened Bytes

  datatype Run = Literals(bytes: seq<byte>) | Zeros(count: nat)

  predicate ValidRun(run: Run) {
    match run
    case Literals(bytes) => 1 <= |bytes| <= 128
    case Zeros(count) => 64 <= count <= 191
  }

  predicate Valid(runs: seq<Run>) {
    forall i :: 0 <= i < |runs| ==> ValidRun(runs[i])
  }

  function RunBytes(run: Run): (s: seq<byte>)
    requires ValidRun(run)
    ensures s != []
  {
    match run
    case Literals(bytes) => [|bytes| - 1] + bytes
    case Zeros(count) => [count - 64 + 0x80]
  }

  function RunData(run: Run): (s: seq<byte>)
    requires ValidRun(run)
    ensures s != []
  {
    match run
    case Literals(bytes) => bytes
    case Zeros(count) => Repeat(0, count)
  }

  /** The printer. */
  function Print(runs: seq<Run>): seq<byte>
    requires Valid(runs)
  {
    if runs == [] then [] else RunBytes(runs[0]) + Print(runs[1..])
  }

  /** What the runs stand for. */
  function Meaning(runs: seq<Run>): seq<byte>
    requires Valid(runs)
  {
    if runs == [] then [] else RunData(runs[0]) + Meaning(runs[1..])
  }

  // ---- the decoder ---------------------------------------------------------

  function Bad(reason: Reason): Result<seq<byte>> { Err(DecompressFailed(reason)) }

  /** The run whose control byte is at `si`; None when its bytes are not all there. */
  function ReadRun(src: seq<byte>, si: nat): (r: Option<Run>)
    requires si < |src|
    ensures r.Some? ==> ValidRun(r.value) && si + |RunBytes(r.value)| <= |src|
  {
    var ctrl := src[si] as int;
    if ctrl < 0x80 then
      if si + 2 + ctrl <= |src| then Some(Literals(src[si + 1..si + 2 + ctrl])) else None
    else Some(Zeros(ctrl - 0x80 + 64))
  }

  /** The decoder's remaining work when input position `si` is reached. */
  function DecodeFrom(src: seq<byte>, si: nat, out: seq<byte>, lsize: nat): Result<seq<byte>>
    requires si <= |src|
    decreases |src| - si
  {
    if |out| >= lsize then Ok(out)
    else if si == |src| then Bad(ZleControl)
    else
      match ReadRun(src, si)
      case None => Bad(ZleLiteralRun)
      case Some(run) => DecodeFrom(src, si + |RunBytes(run)|, Take(out + RunData(run), lsize), lsize)
  }

  function Decoded(src: seq<byte>, lsize: nat): Result<seq<byte>> {
    DecodeFrom(src, 0, [], lsize)
  }

  /** The literal loop: pushes bytes until the output is full. */
  method PushLiterals(before: seq<byte>, bytes: seq<byte>, lsize: nat) returns (out: seq<byte>)
    requires |before| <= lsize
    ensures out == Take(before + bytes, lsize)
  {
    out := before;
    for i := 0 to |bytes|
      invariant |out| <= lsize
      invariant out == Take(before + bytes[..i], lsize)
    {
      if |out| >= lsize {
        assert Take(before + bytes, lsize) == out;
        break;
      }
      out := out + [bytes[i]];
    }
  }

  /** The zero loop. */
  method PushZeros(before: seq<byte>, run: nat, lsize: nat) returns (out: seq<byte>)
    requires |before| <= lsize
    ensures out == Take(before + Repeat(0, run), lsize)
  {
    out := before;
    for i := 0 to run
      invariant |out| <= lsize
      invariant out == Take(before + Repeat(0, i), lsize)
    {
      if |out| >= lsize {
        assert Take(before + Repeat(0, run), lsize) == out;
        break;
      }
      out := out + [0];
    }
  }

  /** One turn of the decoder. */
  lemma DecodeStep(src: seq<byte>, si: nat, out: seq<byte>, lsize: nat, run: Run)
    requires si < |src| && |out| < lsize && ReadRun(src, si) == Some(run)
    ensures DecodeFrom(src, si, out, lsize)
         == DecodeFrom(src, si + |RunBytes(run)|, Take(out + RunData(run), lsize), lsize)
  {
    hide RunBytes, RunData, Take;
  }

  lemma LiteralRun(src: seq<byte>, si: nat, out: seq<byte>, lsize: nat, bytes: seq<byte>)
    requires si < |src| && |out| < lsize && src[si] < 0x80 && si + 2 + src[si] as int <= |src|
    requires bytes == src[si + 1..si + 2 + src[si] as int]
    ensures DecodeFrom(src, si, out, lsize) == DecodeFrom(src, si + 1 + |bytes|, Take(out + bytes, lsize), lsize)
  {
    hide DecodeFrom, Take;
    DecodeStep(src, si, out, lsize, Literals(bytes));
  }

  lemma ZeroRun(src: seq<byte>, si: nat, out: seq<byte>, lsize: nat)
    requires si < |src| && |out| < lsize && src[si] >= 0x80
    ensures var n := src[si] as int - 0x80 + 64;
      DecodeFrom(src, si, out, lsize) == DecodeFrom(src, si + 1, Take(out + Repeat(0, n), lsize), lsize)
  {
    hide DecodeFrom, Take;
    DecodeStep(src, si, out, lsize, Zeros(src[si] as int - 0x80 + 64));
  }

  lemma DecodeStops(src: seq<byte>, si: nat, out: seq<byte>, lsize: nat)
    requires si <= |src|
    ensures |out| >= lsize ==> DecodeFrom(src, si, out, lsize) == Ok(out)
    ensures |out| < lsize && si == |src| ==> DecodeFrom(src, si, out, lsize) == Bad(ZleControl)
    ensures |out| < lsize && si < |src| && ReadRun(src, si) == None
        ==> DecodeFrom(src, si, out, lsize) == Bad(ZleLiteralRun)
  {
  }

  method Decompress(src: seq<byte>, lsize: nat) returns (r: Result<seq<byte>>)
    ensures r == Decoded(src, lsize)
  {
    hide DecodeFrom, Take, RunBytes, RunData;
    var out: seq<byte> := [];
    var si := 0;
    while |out| < lsize
      invariant si <= |src| && |out| <= lsize
      invariant Decoded(src, lsize) == DecodeFrom(src, si, out, lsize)
      decreases |src| - si
    {
      if si >= |src| {
        DecodeStops(src, si, out, lsize);
        return Bad(ZleControl);
      }
      var ctrl := src[si] as int;
      si := si + 1;
      if ctrl < 0x80 {
        var run := ctrl + 1;
        if si + run > |src| {
          DecodeStops(src, si - 1, out, lsize);
          return Bad(ZleLiteralRun);
        }
        var bytes := src[si..si + run];
        LiteralRun(src, si - 1, out, lsize, bytes);
        out := PushLiterals(out, bytes, lsize);
        si := si + run;
      } else {
        ZeroRun(src, si - 1, out, lsize);
        out := PushZeros(out, ctrl - 0x80 + 1 + 63, lsize);
      }
    }
    DecodeStops(src, si, out, lsize);
    return Ok(out);
  }

  // ---- correctness ---------------------------------------------------------

  /** Reading a run and printing it are inverse to each other. */
  lemma ReadIsPrinted(src: seq<byte>, si: nat, run: Run)
    requires si < |src| && ValidRun(run)
    ensures ReadRun(src, si) == Some(run) <==> RunBytes(run) <= src[si..]
  {
    var rest := src[si..];
    if run.Literals? {
      var n := |run.bytes|;
      if RunBytes(run) <= rest {
        assert rest[..1 + n] == RunBytes(run);
        assert rest[0] == RunBytes(run)[0];
        assert src[si + 1..si + 1 + n] == RunBytes(run)[1..];
      }
    } else {
      assert RunBytes(run) <= rest <==> rest[0] == RunBytes(run)[0];
    }
  }

  /** One turn of the decoder on printed runs. */
  lemma PrintedStep(runs: seq<Run>, src: seq<byte>, si: nat, out: seq<byte>, lsize: nat)
    requires si <= |src| && Valid(runs) && runs != [] && Print(runs) <= src[si..] && |out| < lsize
    ensures var run, rest := runs[0], runs[1..]; var k := |RunBytes(run)|;
      && si + k <= |src| && Valid(rest) && Print(rest) <= src[si + k..]
      && Meaning(runs) == RunData(run) + Meaning(rest)
      && DecodeFrom(src, si, out, lsize) == DecodeFrom(src, si + k, Take(out + RunData(run), lsize), lsize)
  {
    hide DecodeFrom, RunData, Take, ReadRun;
    var k := |RunBytes(runs[0])|;
    SplitPrefix(RunBytes(runs[0]), Print(runs[1..]), src[si..]);
    assert src[si..][k..] == src[si + k..];
    ReadIsPrinted(src, si, runs[0]);
    DecodeStep(src, si, out, lsize, runs[0]);
  }

  lemma {:induction false} PrintedDecodes(runs: seq<Run>, src: seq<byte>, si: nat, out: seq<byte>, lsize: nat)
    requires si <= |src| && Valid(runs) && Print(runs) <= src[si..]
    requires |out| <= lsize <= |out| + |Meaning(runs)|
    ensures DecodeFrom(src, si, out, lsize) == Ok((out + Meaning(runs))[..lsize])
    decreases |runs|
  {
    hide ReadRun, RunBytes, RunData, DecodeFrom, Take, Print;
    if |out| == lsize {
      DecodeStops(src, si, out, lsize);
      assert (out + Meaning(runs))[..lsize] == out;
    } else {
      PrintedStep(runs, src, si, out, lsize);
      var run, rest := runs[0], runs[1..];
      var k, next := |RunBytes(run)|, out + RunData(run);
      if |next| <= lsize {
        Reassociate(out, RunData(run), Meaning(rest));
        PrintedDecodes(rest, src, si + k, next, lsize);
        TakeAll(next, lsize);
      } else {
        DecodeStops(src, si + k, Take(next, lsize), lsize);
        Cut(out, RunData(run), Meaning(rest), lsize);
      }
    }
  }

  lemma SplitPrefix(a: seq<byte>, b: seq<byte>, s: seq<byte>)
    ensures a + b <= s <==> a <= s && b <= s[|a|..]
  {
    if a <= s && b <= s[|a|..] {
      assert s == a + s[|a|..];
      assert s == a + (b + s[|a|..][|b|..]);
    }
    if a + b <= s {
      assert a == (a + b)[..|a|] == s[..|a|];
      assert s[|a|..][..|b|] == b;
    }
  }

  /** The run a successful decoder reads next. */
  lemma NextRun(src: seq<byte>, si: nat, out: seq<byte>, lsize: nat) returns (run: Run)
    requires si <= |src| && |out| < lsize && DecodeFrom(src, si, out, lsize).Ok?
    ensures ValidRun(run) && si + |RunBytes(run)| <= |src| && RunBytes(run) <= src[si..]
    ensures DecodeFrom(src, si, out, lsize)
         == DecodeFrom(src, si + |RunBytes(run)|, Take(out + RunData(run), lsize), lsize)
  {
    run := ReadRun(src, si).value;
    ReadIsPrinted(src, si, run);
    DecodeStep(src, si, out, lsize, run);
  }

  lemma DecodedAlready(src: seq<byte>, si: nat, out: seq<byte>)
    requires si <= |src|
    ensures Valid([]) && Print([]) <= src[si..] && Meaning([]) == []
    ensures DecodeFrom(src, si, out, |out|) == Ok((out + [])[..|out|])
  {
  }

  lemma {:induction false} DecodedWasPrinted(src: seq<byte>, si: nat, out: seq<byte>, lsize: nat)
      returns (runs: seq<Run>)
    requires si <= |src| && |out| <= lsize && DecodeFrom(src, si, out, lsize).Ok?
    ensures Valid(runs) && Print(runs) <= src[si..] && lsize <= |out| + |Meaning(runs)|
    ensures DecodeFrom(src, si, out, lsize) == Ok((out + Meaning(runs))[..lsize])
    decreases |src| - si
  {
    hide ReadRun, RunBytes, RunData, DecodeFrom, Print, Meaning, Valid, Take;
    if |out| == lsize {
      DecodedAlready(src, si, out);
      runs := [];
    } else {
      var run := NextRun(src, si, out, lsize);
      var k, next := |RunBytes(run)|, out + RunData(run);
      if |next| <= lsize {
        TakeAll(next, lsize);
        var more := DecodedWasPrinted(src, si + k, next, lsize);
        runs := [run] + more;
        ConsPrinted(run, more, src, si);
        Reassociate(out, RunData(run), Meaning(more));
      } else {
        runs := [run];
        NonePrinted(src, si + k);
        ConsPrinted(run, [], src, si);
        assert [run] + [] == [run];
        DecodeStops(src, si + k, Take(next, lsize), lsize);
        Cut(out, RunData(run), Meaning([]), lsize);
      }
    }
  }

  lemma NonePrinted(src: seq<byte>, si: nat)
    requires si <= |src|
    ensures Valid([]) && Print([]) <= src[si..]
  {
  }

  lemma ConsPrinted(run: Run, more: seq<Run>, src: seq<byte>, si: nat)
    requires ValidRun(run) && Valid(more) && si <= |src|
    requires RunBytes(run) <= src[si..] && Print(more) <= src[si + |RunBytes(run)|..]
    ensures Valid([run] + more) && Print([run] + more) <= src[si..]
    ensures Meaning([run] + more) == RunData(run) + Meaning(more)
  {
    var runs := [run] + more;
    assert runs[0] == run && runs[1..] == more;
    assert src[si..][|RunBytes(run)|..] == src[si + |RunBytes(run)|..];
    SplitPrefix(RunBytes(run), Print(more), src[si..]);
  }

  lemma TakeAll(s: seq<byte>, n: nat)
    requires |s| <= n
    ensures Take(s, n) == s
  {
  }

  lemma Cut(out: seq<byte>, a: seq<byte>, b: seq<byte>, lsize: nat)
    requires |out| <= lsize <= |out + a|
    ensures (out + (a + b))[..lsize] == Take(out + a, lsize)
  {
    Reassociate(out, a, b);
  }

  /** The decoder succeeds with `out` exactly on the buffers that begin with a printed
      list of runs of which `out` is the first `lsize` bytes. */
  lemma DecodesExactly(src: seq<byte>, lsize: nat, out: seq<byte>)
    ensures Decoded(src, lsize) == Ok(out)
       <==> exists runs: seq<Run> :: Valid(runs) && Print(runs) <= src
              && lsize <= |Meaning(runs)| && out == Meaning(runs)[..lsize]
  {
    assert src[0..] == src;
    if Decoded(src, lsize) == Ok(out) {
      var runs := DecodedWasPrinted(src, 0, [], lsize);
      assert [] + Meaning(runs) == Meaning(runs);
    }
    forall runs: seq<Run> | Valid(runs) && Print(runs) <= src && lsize <= |Meaning(runs)|
      ensures Decoded(src, lsize) == Ok(Meaning(runs)[..lsize])
    {
      PrintedDecodes(runs, src, 0, [], lsize);
      assert [] + Meaning(runs) == Meaning(runs);
    }
  }

  /** Output has exactly the requested length, and asking for less gives a prefix. */
  lemma DecodedPrefix(src: seq<byte>, m: nat, n: nat)
    requires n <= m && Decoded(src, m).Ok?
    ensures |Decoded(src, m).value| == m
    ensures Decoded(src, n) == Ok(Decoded(src, m).value[..n])
  {
    var runs := DecodedWasPrinted(src, 0, [], m);
    assert [] + Meaning(runs) == Meaning(runs);
    PrintedDecodes(runs, src, 0, [], n);
    assert Meaning(runs)[..m][..n] == Meaning(runs)[..n];
  }

  /** Printed runs that stand for fewer bytes than asked for are refused. */
  lemma {:induction false} ShortRefused(runs: seq<Run>, src: seq<byte>, si: nat, out: seq<byte>, lsize: nat)
    requires si <= |src| && Valid(runs) && Print(runs) == src[si..] && |out| + |Meaning(runs)| < lsize
    ensures DecodeFrom(src, si, out, lsize) == Bad(ZleControl)
    decreases |runs|
  {
    hide RunBytes, RunData, DecodeFrom;
    if runs == [] {
      DecodeStops(src, si, out, lsize);
    } else {
      PrintedStep(runs, src, si, out, lsize);
      var k, next := |RunBytes(runs[0])|, out + RunData(runs[0]);
      assert src[si..][k..] == src[si + k..];
      TakeAll(next, lsize);
      ShortRefused(runs[1..], src, si + k, next, lsize);
    }
  }

  /** The decoder succeeds exactly on the buffers that begin with printed runs for at least
      the bytes asked for. */
  lemma SucceedsExactly(src: seq<byte>, lsize: nat)
    ensures Decoded(src, lsize).Ok?
       <==> exists runs: seq<Run> :: Valid(runs) && Print(runs) <= src && lsize <= |Meaning(runs)|
  {
    assert src[0..] == src;
    if Decoded(src, lsize).Ok? {
      var runs := DecodedWasPrinted(src, 0, [], lsize);
      assert Valid(runs) && Print(runs) <= src;
    }
    forall runs: seq<Run> | Valid(runs) && Print(runs) <= src && lsize <= |Meaning(runs)|
      ensures Decoded(src, lsize).Ok?
    {
      PrintedDecodes(runs, src, 0, [], lsize);
    }
  }

  // ---- runs by hand --------------------------------------------------------

  /** Control byte 0x80 stands for 64 zeros, control byte 2 for three literals. */
  lemma KnownRuns()
    ensures Decoded([0x80], 64) == Ok(Repeat<byte>(0, 64)) && Decoded([0x80], 65).Err?
    ensures Decoded([2, 7, 8, 9], 3) == Ok([7, 8, 9])
  {
    hide DecodeFrom;
    ZeroRun([0x80], 0, [], 64);
    ZeroRun([0x80], 0, [], 65);
    var zeros := Repeat<byte>(0, 64);
    assert [] + zeros == zeros;
    TakeAll(zeros, 64);
    TakeAll(zeros, 65);
    DecodeStops([0x80], 1, zeros, 64);
    DecodeStops([0x80], 1, zeros, 65);
    var src: seq<byte>, bytes: seq<byte> := [2, 7, 8, 9], [7, 8, 9];
    assert src[1..4] == bytes && [] + bytes == bytes;
    LiteralRun(src, 0, [], 3, bytes);
    TakeAll(bytes, 3);
    DecodeStops(src, 4, bytes, 3);
  }
}
