/** The Redis serialization protocol: a recursive-descent parser over a whole
    byte string. It is the reference the resumable reader is proved against. */
module Resp {
  import opened Bytes
  import opened Decimal

  datatype Reply =
    | Status(text: seq<byte>)
    | Error(text: seq<byte>)
    | Integer(value: int)
    | Bulk(text: seq<byte>)
    | Nil
    | Array(elements: seq<Reply>)

  /** The protocol errors, one per message of the reader. */
  datatype Fault =
    | BadTypeByte(b: byte)
    | BadInteger
    | BadBulkLength
    | BulkLengthOutOfRange
    | BadMultiBulkLength
    | MultiBulkLengthOutOfRange
    | TooDeep

  /** The outcome of parsing a prefix of the bytes received so far. */
  datatype Parsed<+T> = Done(value: T, rest: seq<byte>) | More | Fail(fault: Fault)

  const PLUS: byte := 43
  const DASH: byte := 45
  const COLON: byte := 58
  const DOLLAR: byte := 36
  const STAR: byte := 42

  /** Arrays are accepted at levels 0 to 7 of the reader's nine-slot stack. */
  const MAX_LEVEL: nat := 8

  predicate IsTypeByte(b: byte) {
    b == PLUS || b == DASH || b == COLON || b == DOLLAR || b == STAR
  }

  /** Where the first CR LF of `s` starts. */
  function FirstCrlf(s: seq<byte>): (r: Option<nat>)
    ensures r.Some? ==> r.value + 2 <= |s| && s[r.value] == CR && s[r.value + 1] == LF
    ensures forall i: nat | i + 1 < |s| && (r.None? || i < r.value) :: !(s[i] == CR && s[i + 1] == LF)
  {
    if |s| < 2 then None
    else if s[0] == CR && s[1] == LF then Some(0)
    else
      match FirstCrlf(s[1..])
      case None =>
        assert forall i | 1 <= i < |s| - 1 :: s[i] == s[1..][i - 1] && s[i + 1] == s[1..][i];
        None
      case Some(k) =>
        assert forall i | 1 <= i < |s| - 1 :: s[i] == s[1..][i - 1] && s[i + 1] == s[1..][i];
        Some(k + 1)
  }

  function TakeLine(s: seq<byte>): Parsed<seq<byte>> {
    match FirstCrlf(s)
    case None => More
    case Some(k) => Done(s[..k], s[k + 2..])
  }

  /** A line holding an integer between `lo` and `hi`. */
  ghost function TakeInt(s: seq<byte>, lo: int, hi: int, bad: Fault, outOfRange: Fault): Parsed<int> {
    match TakeLine(s)
    case More => More
    case Fail(f) => Fail(f)
    case Done(line, rest) =>
      match ParseInt(line)
      case None => Fail(bad)
      case Some(v) => if lo <= v <= hi then Done(v, rest) else Fail(outOfRange)
  }

  /** What follows a type byte: a finished value, or the opening of an array of
      `count` > 0 elements. */
  datatype Head = Value(reply: Reply) | Open(count: nat)

  ghost function LineHead(ty: byte, s: seq<byte>): Parsed<Head> {
    match TakeLine(s)
    case More => More
    case Fail(f) => Fail(f)
    case Done(line, rest) =>
      if ty == COLON then
        match ParseInt(line)
        case None => Fail(BadInteger)
        case Some(v) => Done(Value(Integer(v)), rest)
      else
        Done(Value(if ty == PLUS then Status(line) else Error(line)), rest)
  }

  ghost function BulkHead(s: seq<byte>): Parsed<Head> {
    match TakeInt(s, -1, LLONG_MAX, BadBulkLength, BulkLengthOutOfRange)
    case More => More
    case Fail(f) => Fail(f)
    case Done(len, rest) =>
      if len == -1 then Done(Value(Nil), rest)
      else if |rest| < len + 2 then More
      else Done(Value(Bulk(rest[..len])), rest[len + 2..])
  }

  ghost function ArrayHead(level: nat, s: seq<byte>): Parsed<Head> {
    if level == MAX_LEVEL then Fail(TooDeep) else
      match TakeInt(s, -1, INT_MAX, BadMultiBulkLength, MultiBulkLengthOutOfRange)
      case More => More
      case Fail(f) => Fail(f)
      case Done(n, rest) =>
        Done(if n == -1 then Value(Nil) else if n == 0 then Value(Array([])) else Open(n), rest)
  }

  ghost function ParseHead(level: nat, ty: byte, s: seq<byte>): (p: Parsed<Head>)
    requires level <= MAX_LEVEL && IsTypeByte(ty)
    ensures p.Done? ==> |p.rest| < |s|
    ensures p.Done? && p.value.Open? ==> level < MAX_LEVEL && 0 < p.value.count <= INT_MAX
  {
    if ty == STAR then ArrayHead(level, s)
    else if ty == DOLLAR then BulkHead(s)
    else LineHead(ty, s)
  }

  // ----- The recursive-descent parser

  /** One item at nesting depth `level`. */
  ghost function ParseItem(level: nat, s: seq<byte>): (p: Parsed<Reply>)
    requires level <= MAX_LEVEL
    ensures p.Done? ==> |p.rest| < |s|
    decreases MAX_LEVEL - level, 1, 0
  {
    if s == [] then More
    else if !IsTypeByte(s[0]) then Fail(BadTypeByte(s[0]))
    else ParseBody(level, s[0], s[1..])
  }

  /** The rest of an item whose type byte is `ty`. */
  ghost function ParseBody(level: nat, ty: byte, s: seq<byte>): (p: Parsed<Reply>)
    requires level <= MAX_LEVEL && IsTypeByte(ty)
    ensures p.Done? ==> |p.rest| < |s|
    decreases MAX_LEVEL - level, 0, 0
  {
    match ParseHead(level, ty, s)
    case More => More
    case Fail(f) => Fail(f)
    case Done(Value(v), rest) => Done(v, rest)
    case Done(Open(n), rest) =>
      match ParseItems(level + 1, n, rest)
      case More => More
      case Fail(f) => Fail(f)
      case Done(vs, rest') => Done(Array(vs), rest')
  }

  /** `n` items in a row, at nesting depth `level`. */
  ghost function ParseItems(level: nat, n: nat, s: seq<byte>): (p: Parsed<seq<Reply>>)
    requires level <= MAX_LEVEL
    ensures p.Done? ==> |p.rest| <= |s| && |p.value| == n
    decreases MAX_LEVEL - level, 2, n
  {
    if n == 0 then Done([], s) else
      match ParseItem(level, s)
      case More => More
      case Fail(f) => Fail(f)
      case Done(v, rest) =>
        match ParseItems(level, n - 1, rest)
        case More => More
        case Fail(f) => Fail(f)
        case Done(vs, rest') => Done([v] + vs, rest')
  }

  // ----- A whole stream of replies

  /** The replies of a stream, and the error that ends it, if any. */
  datatype Transcript = Transcript(replies: seq<Reply>, fault: Option<Fault>)

  ghost function Stream(s: seq<byte>): Transcript
    decreases |s|
  {
    match ParseItem(0, s)
    case More => Transcript([], None)
    case Fail(f) => Transcript([], Some(f))
    case Done(v, rest) => Prepend([v], Stream(rest))
  }

  function Prepend(vs: seq<Reply>, t: Transcript): Transcript {
    Transcript(vs + t.replies, t.fault)
  }

  // ----- Heads do not depend on bytes that come after them

  lemma FirstCrlfExtends(s: seq<byte>, more: seq<byte>)
    requires FirstCrlf(s).Some?
    ensures FirstCrlf(s + more) == FirstCrlf(s)
  {
    var k := FirstCrlf(s).value;
    assert (s + more)[k] == s[k] && (s + more)[k + 1] == s[k + 1];
  }

  lemma TakeLineExtends(s: seq<byte>, more: seq<byte>)
    requires TakeLine(s).Done?
    ensures TakeLine(s + more) == Done(TakeLine(s).value, TakeLine(s).rest + more)
  {
    FirstCrlfExtends(s, more);
    var k := FirstCrlf(s).value;
    assert (s + more)[..k] == s[..k];
    assert (s + more)[k + 2..] == s[k + 2..] + more;
  }

  /** A finished or failed head stays what it is when more bytes arrive. */
  lemma HeadExtends(level: nat, ty: byte, s: seq<byte>, more: seq<byte>)
    requires level <= MAX_LEVEL && IsTypeByte(ty)
    ensures match ParseHead(level, ty, s)
            case Done(h, rest) => ParseHead(level, ty, s + more) == Done(h, rest + more)
            case Fail(f) => ParseHead(level, ty, s + more) == Fail(f)
            case More => true
  {
    hide ParseInt;
    if TakeLine(s).Done? {
      TakeLineExtends(s, more);
      var line, rest := TakeLine(s).value, TakeLine(s).rest;
      if ty == DOLLAR && ParseInt(line).Some? && 0 <= ParseInt(line).value && |rest| >= ParseInt(line).value + 2 {
        var len := ParseInt(line).value;
        assert (rest + more)[..len] == rest[..len];
        assert (rest + more)[len + 2..] == rest[len + 2..] + more;
      }
    }
  }
}
