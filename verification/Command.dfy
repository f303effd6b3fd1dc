/** The writers of hiredis.c: three formatters that predict the exact length of a
    command and then fill a buffer, and what the reply parser makes of it. */
module Command {
  import opened Bytes
  import opened Decimal
  import opened Resp
  import Machine
  import Memory
  import Replies

  // ----- What a command looks like on the wire

  function EncodeArg(a: seq<byte>): seq<byte> {
    [DOLLAR] + Dec(|a|) + CRLF + a + CRLF
  }

  function EncodeArgs(argv: seq<seq<byte>>): seq<byte> {
    if argv == [] then [] else EncodeArgs(argv[..|argv| - 1]) + EncodeArg(argv[|argv| - 1])
  }

  function Encode(argv: seq<seq<byte>>): seq<byte> {
    [STAR] + Dec(|argv|) + CRLF + EncodeArgs(argv)
  }

  lemma {:induction false} EncodeArgsFront(argv: seq<seq<byte>>)
    requires argv != []
    ensures EncodeArgs(argv) == EncodeArg(argv[0]) + EncodeArgs(argv[1..])
  {
    hide EncodeArg;
    var init, last := argv[..|argv| - 1], argv[|argv| - 1];
    if init == [] {
      assert argv[1..] == [];
    } else {
      EncodeArgsFront(init);
      assert argv[1..][..|argv| - 2] == init[1..];
      assert EncodeArgs(argv[1..]) == EncodeArgs(init[1..]) + EncodeArg(last);
      Associate(EncodeArg(argv[0]), EncodeArgs(init[1..]), EncodeArg(last));
    }
  }

  lemma Associate(a: seq<byte>, b: seq<byte>, c: seq<byte>)
    ensures a + b + c == a + (b + c)
  {
  }

  lemma {:induction false} EncodeArgsGrows(argv: seq<seq<byte>>, j: nat)
    requires j <= |argv|
    ensures |EncodeArgs(argv[..j])| <= |EncodeArgs(argv)|
    decreases |argv|
  {
    if j == |argv| {
      assert argv[..j] == argv;
    } else {
      EncodeArgsGrows(argv[..|argv| - 1], j);
      assert argv[..|argv| - 1][..j] == argv[..j];
    }
  }

  lemma EncodeArgsStep(argv: seq<seq<byte>>, j: nat)
    requires j < |argv|
    ensures EncodeArgs(argv[..j + 1]) == EncodeArgs(argv[..j]) + EncodeArg(argv[j])
    ensures |EncodeArgs(argv[..j + 1])| <= |EncodeArgs(argv)|
  {
    assert argv[..j + 1][..j] == argv[..j];
    EncodeArgsGrows(argv, j + 1);
  }

  // ----- Reading a command back

  ghost function Bulks(argv: seq<seq<byte>>): (vs: seq<Reply>)
    ensures |vs| == |argv| && forall i | 0 <= i < |argv| :: vs[i] == Bulk(argv[i])
  {
    seq(|argv|, i requires 0 <= i < |argv| => Bulk(argv[i]))
  }

  /** A command is written as an array of bulk strings. */
  lemma {:induction false} ArgsAreWritten(argv: seq<seq<byte>>)
    ensures EncodeArgs(argv) == Replies.WrittenAll(Bulks(argv))
  {
    hide EncodeArgs;
    hide EncodeArg;
    NoArgs(argv);
    if argv != [] {
      EncodeArgsFront(argv);
      ArgsAreWritten(argv[1..]);
      ArgIsWritten(argv[0]);
      assert Bulks(argv)[1..] == Bulks(argv[1..]);
    }
  }

  lemma ArgIsWritten(a: seq<byte>)
    ensures EncodeArg(a) == Replies.Written(Bulk(a))
  {
  }

  lemma CommandIsWritten(argv: seq<seq<byte>>)
    ensures Encode(argv) == Replies.Written(Array(Bulks(argv)))
  {
    hide EncodeArgs;
    ArgsAreWritten(argv);
  }

  /** The reader turns a command back into one array of exactly its arguments,
      and consumes every byte of it. */
  lemma ReadCommand(argv: seq<seq<byte>>, rest: seq<byte>)
    requires |argv| <= INT_MAX && forall a | a in argv :: |a| <= LLONG_MAX
    ensures ParseItem(0, Encode(argv) + rest) == Done(Array(Bulks(argv)), rest)
  {
    hide Encode;
    hide Replies.Written;
    hide ParseItem;
    CommandIsWritten(argv);
    forall v | v in Bulks(argv)
      ensures Replies.Sendable(1, v)
    {
      var i :| 0 <= i < |argv| && Bulks(argv)[i] == v;
      assert argv[i] in argv;
    }
    Replies.ReadReply(0, Array(Bulks(argv)), rest);
  }

  function EncodeAll(cmds: seq<seq<seq<byte>>>): seq<byte> {
    if cmds == [] then [] else Encode(cmds[0]) + EncodeAll(cmds[1..])
  }

  ghost function Arrays(cmds: seq<seq<seq<byte>>>): seq<Reply> {
    if cmds == [] then [] else [Array(Bulks(cmds[0]))] + Arrays(cmds[1..])
  }

  ghost predicate Sendable(cmds: seq<seq<seq<byte>>>) {
    forall argv | argv in cmds :: |argv| <= INT_MAX && forall a | a in argv :: |a| <= LLONG_MAX
  }

  /** Commands back to back read as the arrays of their arguments. */
  lemma {:induction false} ReadPipeline(cmds: seq<seq<seq<byte>>>)
    requires Sendable(cmds)
    ensures Stream(EncodeAll(cmds)) == Transcript(Arrays(cmds), None)
  {
    if cmds != [] {
      ReadCommand(cmds[0], EncodeAll(cmds[1..]));
      ReadPipeline(cmds[1..]);
    }
  }

  /** The same through the resumable reader, however the bytes are cut up. */
  lemma PipelineThroughReader(cmds: seq<seq<seq<byte>>>, ops: seq<Machine.Op>)
    requires Sendable(cmds)
    requires Machine.Fed(ops) == EncodeAll(cmds) && Machine.Drained(ops)
    ensures Machine.Outcome(Machine.RunSession(ops)) == Transcript(Arrays(cmds), None)
  {
    ReadPipeline(cmds);
    Machine.ChunkingInvariance(ops);
  }

  // ----- The formatters over an argument vector

  /** `bulklen`. */
  method BulkLen(len: nat) returns (r: nat)
    ensures forall a | |a| == len :: r == |EncodeArg(a)|
  {
    var digits := CountDigits(len);
    r := 1 + digits + 2 + len + 2;
  }

  lemma NoArgs(argv: seq<seq<byte>>)
    ensures EncodeArgs(argv[..0]) == [] && argv[..|argv|] == argv
  {
  }

  /** Builds the command at protocol level in a buffer of the predicted length. */
  method Build(argv: seq<seq<byte>>, totlen: nat) returns (cmd: array<byte>)
    requires totlen == |Encode(argv)|
    ensures fresh(cmd) && cmd.Length == totlen + 1
    ensures cmd[..totlen] == Encode(argv) && cmd[totlen] == 0
  {
    hide Dec;
    hide EncodeArgs;
    NoArgs(argv);
    cmd := new byte[totlen + 1];
    var pos := Memory.Copy(cmd, 0, [STAR] + Dec(|argv|) + CRLF);
    ghost var head := [STAR] + Dec(|argv|) + CRLF;
    assert head + [] == head;
    for j := 0 to |argv|
      invariant pos == |head| + |EncodeArgs(argv[..j])| <= totlen
      invariant cmd[..pos] == head + EncodeArgs(argv[..j])
    {
      EncodeArgsStep(argv, j);
      ghost var before := cmd[..pos];
      pos := Memory.Copy(cmd, pos, [DOLLAR] + Dec(|argv[j]|) + CRLF);
      pos := Memory.Copy(cmd, pos, argv[j]);
      pos := Memory.Copy(cmd, pos, CRLF);
      assert cmd[..pos] == before + EncodeArg(argv[j]);
    }
    assert argv[..|argv|] == argv;
    assert pos == totlen;
    cmd[pos] := 0;
    assert cmd[..totlen] == head + EncodeArgs(argv);
  }

  /** The number of bytes of a command. */
  method Predict(argv: seq<seq<byte>>) returns (totlen: nat)
    ensures totlen == |Encode(argv)|
  {
    var digits := CountDigits(|argv|);
    totlen := 1 + digits + 2;
    for j := 0 to |argv|
      invariant totlen == 1 + |Dec(|argv|)| + 2 + |EncodeArgs(argv[..j])|
    {
      EncodeArgsStep(argv, j);
      var len := BulkLen(|argv[j]|);
      totlen := totlen + len;
    }
    assert argv[..|argv|] == argv;
  }

  /** The same sum in an `int`, which wraps around at every addition. */
  method PredictInt(argv: seq<seq<byte>>) returns (totlen: int)
    ensures totlen == ToInt32(|Encode(argv)|)
  {
    hide ToInt32;
    hide Dec;
    hide EncodeArgs;
    NoArgs(argv);
    var digits := CountDigits(|argv|);
    totlen := ToInt32(1 + digits + 2);
    for j := 0 to |argv|
      invariant totlen == ToInt32(1 + |Dec(|argv|)| + 2 + |EncodeArgs(argv[..j])|)
    {
      EncodeArgsStep(argv, j);
      var len := BulkLen(|argv[j]|);
      WrapTwice(1 + |Dec(|argv|)| + 2 + |EncodeArgs(argv[..j])|, len);
      totlen := ToInt32(totlen + len);
    }
    assert argv[..|argv|] == argv;
  }

  lemma WrapTwice(x: int, y: int)
    ensures ToInt32(ToInt32(x) + y) == ToInt32(x + y)
  {
  }

  /** How a formatter ends: with a command and the `int` it returns, with -1 because the
      buffer cannot be allocated, with a failed assertion, or outside of what C defines. */
  datatype Formatted = Formatted(cmd: seq<byte>, result: int) | OutOfMemory | AssertionFails | Undefined

  /** The formatters that keep the length in an `int`. A negative length asks `malloc` for
      nearly 2^64 bytes; one that wrapped to a smaller number, or that cannot be
      incremented, leads out of the buffer. */
  function ArgvOutcome(argv: seq<seq<byte>>): Formatted {
    var totlen := ToInt32(|Encode(argv)|);
    if |argv| > INT_MAX then Undefined
    else if totlen < -1 then OutOfMemory
    else if totlen != |Encode(argv)| || totlen == INT_MAX then Undefined
    else Formatted(Encode(argv), totlen)
  }

  /** `redisFormatCommandArgv`. */
  method FormatCommandArgv(argv: seq<seq<byte>>) returns (out: Formatted, target: array?<byte>)
    ensures out == ArgvOutcome(argv)
    ensures out.Formatted? ==> target != null && target[..] == out.cmd + [0]
  {
    var totlen := PredictInt(argv);
    out, target := BuildCommand(argv, totlen);
  }

  /** The allocation and what follows it. */
  method BuildCommand(argv: seq<seq<byte>>, totlen: int) returns (out: Formatted, target: array?<byte>)
    requires totlen == ToInt32(|Encode(argv)|)
    ensures out == ArgvOutcome(argv)
    ensures out.Formatted? ==> target != null && target[..] == out.cmd + [0]
  {
    hide Encode;
    var needed := Predict(argv);
    target := null;
    if |argv| > INT_MAX {
      return Undefined, target;
    }
    if totlen < -1 {
      return OutOfMemory, target;
    }
    if totlen != needed || totlen == INT_MAX {
      return Undefined, target;
    }
    var cmd := Build(argv, totlen);
    return Formatted(cmd[..totlen], totlen), cmd;
  }

  /** The arguments as `redisFormatSdsCommandArgv` writes them: it prints each length as
      an `unsigned int`. */
  function EncodeArgsTruncated(argv: seq<seq<byte>>): seq<byte> {
    if argv == [] then [] else EncodeArgsTruncated(argv[..|argv| - 1]) + TruncatedArg(argv[|argv| - 1])
  }

  function TruncatedArg(a: seq<byte>): seq<byte> {
    [DOLLAR] + Dec(|a| % TWO_32) + CRLF + a + CRLF
  }

  function EncodeTruncated(argv: seq<seq<byte>>): seq<byte> {
    [STAR] + Dec(|argv|) + CRLF + EncodeArgsTruncated(argv)
  }

  function SdsOutcome(argv: seq<seq<byte>>): Formatted {
    if |argv| > INT_MAX then Undefined
    else if |EncodeTruncated(argv)| != |Encode(argv)| then AssertionFails
    else Formatted(EncodeTruncated(argv), ToInt32(|Encode(argv)|))
  }

  /** `redisFormatSdsCommandArgv`. */
  method FormatSdsCommandArgv(argv: seq<seq<byte>>) returns (out: Formatted)
    ensures out == SdsOutcome(argv)
  {
    hide Dec;
    hide TruncatedArg;
    hide Encode;
    if |argv| > INT_MAX {
      return Undefined;
    }
    var totlen := Predict(argv);
    var cmd := [] + ([STAR] + Dec(|argv|) + CRLF);
    ghost var head := cmd;
    assert argv[..0] == [] && head + [] == head;
    for j := 0 to |argv|
      invariant cmd == head + EncodeArgsTruncated(argv[..j])
    {
      assert argv[..j + 1][..j] == argv[..j];
      ghost var before := cmd;
      cmd := cmd + ([DOLLAR] + Dec(|argv[j]| % TWO_32) + CRLF);
      cmd := cmd + argv[j];
      cmd := cmd + CRLF;
      SdsArg(before, argv[j]);
      assert cmd == head + (EncodeArgsTruncated(argv[..j]) + TruncatedArg(argv[j]));
    }
    assert argv[..|argv|] == argv;
    if |cmd| != totlen {
      return AssertionFails;
    }
    return Formatted(cmd, ToInt32(totlen));
  }

  lemma SdsArg(cmd: seq<byte>, a: seq<byte>)
    ensures cmd + ([DOLLAR] + Dec(|a| % TWO_32) + CRLF) + a + CRLF == cmd + TruncatedArg(a)
  {
    hide Dec;
    Regroup(cmd, [DOLLAR] + Dec(|a| % TWO_32) + CRLF, a, CRLF);
  }

  lemma Regroup(c: seq<byte>, p: seq<byte>, q: seq<byte>, r: seq<byte>)
    ensures c + p + q + r == c + (p + q + r)
  {
  }

  lemma {:induction false} DecGrows(m: nat, n: nat)
    requires m <= n
    ensures |Dec(m)| <= |Dec(n)|
  {
    if m >= 10 {
      DecGrows(m / 10, n / 10);
    }
  }

  lemma {:induction false} TruncatedIsShorter(argv: seq<seq<byte>>)
    ensures |EncodeArgsTruncated(argv)| <= |EncodeArgs(argv)|
  {
    if argv != [] {
      TruncatedIsShorter(argv[..|argv| - 1]);
      var n := |argv[|argv| - 1]|;
      DecGrows(n % TWO_32, n);
    }
  }

  /** The printed lengths are right exactly if every argument is shorter than 2^32 bytes. */
  lemma {:induction false} LengthsPrinted(argv: seq<seq<byte>>)
    ensures EncodeArgsTruncated(argv) == EncodeArgs(argv) <==> forall a | a in argv :: |a| < TWO_32
  {
    hide TruncatedArg;
    hide EncodeArg;
    if argv != [] {
      var init, a := argv[..|argv| - 1], argv[|argv| - 1];
      LengthsPrinted(init);
      assert forall b :: b in argv <==> b in init || b == a;
      if |a| < TWO_32 {
        ShortArg(a);
        AppendCancels(EncodeArgsTruncated(init), EncodeArgs(init), EncodeArg(a));
      } else if EncodeArgsTruncated(argv) == EncodeArgs(argv) {
        TruncatedIsShorter(init);
        LastBlock(EncodeArgsTruncated(init), EncodeArgs(init), a);
        assert false;
      }
    }
  }

  lemma ShortArg(a: seq<byte>)
    requires |a| < TWO_32
    ensures TruncatedArg(a) == EncodeArg(a)
  {
  }

  lemma AppendCancels(s: seq<byte>, t: seq<byte>, u: seq<byte>)
    ensures s + u == t + u ==> s == t
  {
    if s + u == t + u {
      assert s == (s + u)[..|s|] && t == (t + u)[..|t|];
    }
  }

  lemma LastBlock(s: seq<byte>, t: seq<byte>, a: seq<byte>)
    requires |s| <= |t| && s + TruncatedArg(a) == t + EncodeArg(a)
    ensures |a| < TWO_32
  {
    hide Dec;
    DecGrows(|a| % TWO_32, |a|);
    var u, v := s + TruncatedArg(a), t + EncodeArg(a);
    assert |s| == |t|;
    assert u[..|s|] == s && v[..|t|] == t;
    var k := |Dec(|a|)|;
    assert u[|s| + 1..|s| + 1 + k] == Dec(|a| % TWO_32);
    assert v[|s| + 1..|s| + 1 + k] == Dec(|a|);
    PrintInjective(|a| % TWO_32, |a|);
  }

  lemma {:induction false} ArgsAreShorter(argv: seq<seq<byte>>)
    ensures |argv| <= |EncodeArgs(argv)|
    ensures forall a | a in argv :: |a| < |EncodeArgs(argv)|
  {
    if argv != [] {
      var init, a := argv[..|argv| - 1], argv[|argv| - 1];
      ArgsAreShorter(init);
      assert forall b :: b in argv <==> b in init || b == a;
    }
  }

  /** The two argument-vector formatters both succeed, with the same bytes and the same
      result, exactly on commands shorter than INT_MAX bytes. */
  lemma FormattersAgree(argv: seq<seq<byte>>)
    ensures ArgvOutcome(argv).Formatted? <==> |Encode(argv)| < INT_MAX
    ensures ArgvOutcome(argv).Formatted? && SdsOutcome(argv) == ArgvOutcome(argv) <==> |Encode(argv)| < INT_MAX
  {
    hide Dec;
    hide EncodeArgs;
    hide EncodeArgsTruncated;
    ArgsAreShorter(argv);
    LengthsPrinted(argv);
  }

  /** One argument of 2^31 bytes: one formatter reports that memory is short, and the other
      writes the command and returns a negative length. */
  lemma FormattersDisagree(a: seq<byte>)
    requires |a| == 0x8000_0000
    ensures ArgvOutcome([a]) == OutOfMemory
    ensures SdsOutcome([a]) == Formatted(Encode([a]), -2147483629)
  {
    hide Dec;
    assert |Dec(1)| == 1 && |Dec(|a|)| == 10 by {
      assert Pow10(4) == 10_000;
      assert Pow10(9) == 100_000 * Pow10(4) && Pow10(10) == 10 * Pow10(9);
      DecLength(1, 1);
      DecLongEnough(1, 0);
      DecLength(|a|, 10);
      DecLongEnough(|a|, 9);
    }
    assert [a][..0] == [];
    assert EncodeArgs([a]) == EncodeArgs([]) + EncodeArg(a);
    assert |Encode([a])| == 2147483667;
    LengthsPrinted([a]);
  }

  // ----- The formatter over a template

  const PERCENT: byte := 37
  const SPACE: byte := 32
  const LOWER_S: byte := 115
  const LOWER_B: byte := 98

  /** What a template says from left to right: a gap between arguments, or text
      of the current argument. */
  datatype Piece = Gap | Text(text: seq<byte>)

  /** A template of literal text, %s, %b and %%, with an interpolated string for
      each %s and %b. A lone % at the end is literal. */
  ghost predicate Template(format: seq<byte>, args: seq<seq<byte>>) {
    if format == [] then true
    else if format[0] != PERCENT || |format| == 1 then Template(format[1..], args)
    else if format[1] == PERCENT then Template(format[2..], args)
    else (format[1] == LOWER_S || format[1] == LOWER_B) && args != [] && Template(format[2..], args[1..])
  }

  ghost function Pieces(format: seq<byte>, args: seq<seq<byte>>): seq<Piece>
    requires Template(format, args)
  {
    if format == [] then []
    else if format[0] != PERCENT || |format| == 1 then
      [if format[0] == SPACE then Gap else Text([format[0]])] + Pieces(format[1..], args)
    else if format[1] == PERCENT then [Text([PERCENT])] + Pieces(format[2..], args)
    else [Text(args[0])] + Pieces(format[2..], args[1..])
  }

  /** The number of text pieces at the front. */
  ghost function RunLength(ps: seq<Piece>): (k: nat)
    ensures k <= |ps| && (forall i | 0 <= i < k :: ps[i].Text?)
    ensures k < |ps| ==> ps[k].Gap?
  {
    if ps == [] || ps[0].Gap? then 0 else 1 + RunLength(ps[1..])
  }

  ghost function Glue(ps: seq<Piece>): seq<byte>
    requires forall p | p in ps :: p.Text?
  {
    if ps == [] then [] else ps[0].text + Glue(ps[1..])
  }

  /** The arguments of a template: one for each maximal run of text pieces. */
  ghost function Words(ps: seq<Piece>): seq<seq<byte>>
    decreases |ps|
  {
    if ps == [] then []
    else if ps[0].Gap? then Words(ps[1..])
    else [Glue(ps[..RunLength(ps)])] + Words(ps[RunLength(ps)..])
  }

  /** The arguments when `current` was already read and `touched` says whether it
      counts. */
  ghost function WordsFrom(touched: bool, current: seq<byte>, ps: seq<Piece>): seq<seq<byte>> {
    if touched then [current + Glue(ps[..RunLength(ps)])] + Words(ps[RunLength(ps)..]) else Words(ps)
  }

  lemma TextStep(touched: bool, current: seq<byte>, text: seq<byte>, ps: seq<Piece>)
    requires touched || current == []
    ensures WordsFrom(touched, current, [Text(text)] + ps) == WordsFrom(true, current + text, ps)
  {
    var all := [Text(text)] + ps;
    assert all[1..] == ps;
    var k := RunLength(ps);
    assert all[..k + 1][1..] == ps[..k];
    assert Glue(all[..k + 1]) == text + Glue(ps[..k]);
    assert current + (text + Glue(ps[..k])) == current + text + Glue(ps[..k]);
    assert all[k + 1..] == ps[k..];
    assert [] + Glue(all[..k + 1]) == Glue(all[..k + 1]);
  }

  lemma GapStep(touched: bool, current: seq<byte>, ps: seq<Piece>)
    requires touched || current == []
    ensures WordsFrom(touched, current, [Gap] + ps) == (if touched then [current] else []) + WordsFrom(false, [], ps)
  {
    var all := [Gap] + ps;
    assert all[1..] == ps && all[..0] == [] && all[0..] == all;
    assert current + [] == current;
  }

  /** `redisvFormatCommand`, without printf-style conversions. */
  method FormatCommand(format: seq<byte>, args: seq<seq<byte>>) returns (out: Formatted, target: array?<byte>)
    requires Template(format, args)
    ensures out == ArgvOutcome(Words(Pieces(format, args)))
    ensures out.Formatted? ==> target != null && target[..] == out.cmd + [0]
  {
    var argv := SplitTemplate(format, args);
    var totlen := PredictInt(argv);
    out, target := BuildCommand(argv, totlen);
  }

  /** The loop over the template. */
  method SplitTemplate(format: seq<byte>, args: seq<seq<byte>>) returns (argv: seq<seq<byte>>)
    requires Template(format, args)
    ensures argv == Words(Pieces(format, args))
  {
    hide Words;
    hide WordsFrom;
    var c, ap := 0, 0;
    var current, touched := [], false;
    argv := [];
    NothingTouched(Pieces(format, args));
    assert format[0..] == format && args[0..] == args;
    while c < |format|
      invariant c <= |format| && ap <= |args|
      invariant Template(format[c..], args[ap..])
      invariant touched || current == []
      invariant argv + WordsFrom(touched, current, Pieces(format[c..], args[ap..])) == Words(Pieces(format, args))
    {
      ghost var rest, left := format[c..], args[ap..];
      assert rest[1..] == format[c + 1..];
      if format[c] != PERCENT || c + 1 == |format| {
        if format[c] == SPACE {
          ghost var tail := Pieces(rest[1..], left);
          assert Pieces(rest, left) == [Gap] + tail;
          GapStep(touched, current, tail);
          assert argv + ([current] + WordsFrom(false, [], tail)) == argv + [current] + WordsFrom(false, [], tail);
          assert argv + ([] + WordsFrom(false, [], tail)) == argv + WordsFrom(false, [], tail);
          if touched {
            argv := argv + [current];
            current := [];
            touched := false;
          }
        } else {
          assert Pieces(rest, left) == [Text([format[c]])] + Pieces(rest[1..], left);
          TextStep(touched, current, [format[c]], Pieces(rest[1..], left));
          current := current + [format[c]];
          touched := true;
        }
      } else {
        assert rest[2..] == format[c + 2..];
        if format[c + 1] == PERCENT {
          assert Pieces(rest, left) == [Text([PERCENT])] + Pieces(rest[2..], left);
          TextStep(touched, current, [PERCENT], Pieces(rest[2..], left));
          current := current + [PERCENT];
        } else {
          assert left[1..] == args[ap + 1..];
          assert Pieces(rest, left) == [Text(args[ap])] + Pieces(rest[2..], left[1..]);
          assert args[ap] == [] ==> current + args[ap] == current;
          TextStep(touched, current, left[0], Pieces(rest[2..], left[1..]));
          if |args[ap]| > 0 {
            current := current + args[ap];
          }
          ap := ap + 1;
        }
        touched := true;
        c := c + 1;
      }
      c := c + 1;
    }
    LastWord(touched, current);
    if touched {
      argv := argv + [current];
    }
  }

  lemma NothingTouched(ps: seq<Piece>)
    ensures [] + WordsFrom(false, [], ps) == Words(ps)
  {
  }

  lemma LastWord(touched: bool, current: seq<byte>)
    ensures WordsFrom(touched, current, []) == if touched then [current] else []
  {
    assert current + Glue([]) == current;
    assert [current] + [] == [current];
  }

  /** The template with one %b for each argument, separated by spaces. */
  function BinaryTemplate(n: nat): seq<byte> {
    if n == 0 then [] else if n == 1 then [PERCENT, LOWER_B] else [PERCENT, LOWER_B, SPACE] + BinaryTemplate(n - 1)
  }

  /** Interpolated bytes are never split or dropped: any arguments, with spaces or
      empty, come out of a binary template as they went in. */
  lemma {:induction false} BinaryTemplateWords(argv: seq<seq<byte>>)
    ensures Template(BinaryTemplate(|argv|), argv)
    ensures Words(Pieces(BinaryTemplate(|argv|), argv)) == argv
  {
    if argv != [] {
      var format := BinaryTemplate(|argv|);
      BinaryTemplateWords(argv[1..]);
      var more := if |argv| == 1 then [] else [Gap] + Pieces(BinaryTemplate(|argv| - 1), argv[1..]);
      if |argv| == 1 {
        assert format[2..] == [];
      } else {
        assert format[2..][1..] == BinaryTemplate(|argv| - 1);
        GapStep(true, argv[0], Pieces(BinaryTemplate(|argv| - 1), argv[1..]));
      }
      assert Pieces(format, argv) == [Text(argv[0])] + more;
      TextStep(false, [], argv[0], more);
      assert [] + argv[0] == argv[0];
      LastWord(true, argv[0]);
      assert [argv[0]] + argv[1..] == argv;
    }
  }
}
