/** The bytes that stand for each reply, as the protocol writes them. The parser of module
    Resp, and with it the reader, is shown to read exactly these. */
module Replies {
  import opened Bytes
  import opened Decimal
  import opened Resp
  import Machine

  /** A text that a line can hold. */
  ghost predicate OneLine(t: seq<byte>) {
    forall i | 0 <= i < |t| - 1 :: !(t[i] == 13 && t[i + 1] == 10)
  }

  /** What can be sent at nesting depth `level`. */
  ghost predicate Sendable(level: nat, v: Reply)
    decreases v
  {
    match v
    case Status(t) => OneLine(t)
    case Error(t) => OneLine(t)
    case Integer(n) => IsInt64(n)
    case Bulk(t) => |t| <= LLONG_MAX
    case Nil => true
    case Array(vs) => level < 8 && |vs| <= INT_MAX && forall x | x in vs :: Sendable(level + 1, x)
  }

  function Written(v: Reply): (w: seq<byte>)
    decreases v
  {
    match v
    case Status(t) => [43] + t + [13, 10]
    case Error(t) => [45] + t + [13, 10]
    case Integer(n) => [58] + Print(n) + [13, 10]
    case Bulk(t) => [36] + Dec(|t|) + [13, 10] + t + [13, 10]
    case Nil => [36, 45, 49, 13, 10]
    case Array(vs) => [42] + Dec(|vs|) + [13, 10] + WrittenAll(vs)
  }

  function WrittenAll(vs: seq<Reply>): (w: seq<byte>)
    decreases vs
  {
    if vs == [] then [] else Written(vs[0]) + WrittenAll(vs[1..])
  }

  /** The bytes `w` are read as `v`: nil has two forms, and the two bytes behind a bulk
      string are not looked at. */
  ghost predicate Sends(level: nat, v: Reply, w: seq<byte>)
    decreases v
  {
    match v
    case Status(t) => OneLine(t) && w == [43] + t + [13, 10]
    case Error(t) => OneLine(t) && w == [45] + t + [13, 10]
    case Integer(n) => IsInt64(n) && w == [58] + Print(n) + [13, 10]
    case Bulk(t) => |t| <= LLONG_MAX && |w| >= 2 && w[..|w| - 2] == [36] + Dec(|t|) + [13, 10] + t
    case Nil => w == [36, 45, 49, 13, 10] || (level < 8 && w == [42, 45, 49, 13, 10])
    case Array(vs) =>
      && level < 8 && |vs| <= 0x7fff_ffff
      && exists es :: w == [42] + Dec(|vs|) + [13, 10] + es && SendsAll(level + 1, vs, es)
  }

  ghost predicate SendsAll(level: nat, vs: seq<Reply>, w: seq<byte>)
    decreases vs
  {
    if vs == [] then w == []
    else exists k | 0 <= k <= |w| :: Sends(level, vs[0], w[..k]) && SendsAll(level, vs[1..], w[k..])
  }

  // ----- Lines

  lemma ReadLine(t: seq<byte>, rest: seq<byte>)
    requires OneLine(t)
    ensures TakeLine(t + [13, 10] + rest) == Done(t, rest)
  {
    hide FirstCrlf;
    var s := t + [13, 10] + rest;
    var k := |t|;
    assert s[k] == CR && s[k + 1] == LF;
    assert forall i | 0 <= i < k :: s[i] == t[i];
    assert forall i | 0 <= i < k :: !(s[i] == CR && s[i + 1] == LF);
    assert s[..k] == t && s[k + 2..] == rest;
  }

  /** A line is what stands in front of the first CR LF. */
  lemma LineRead(s: seq<byte>)
    requires TakeLine(s).Done?
    ensures OneLine(TakeLine(s).value) && s == TakeLine(s).value + [13, 10] + TakeLine(s).rest
  {
    hide FirstCrlf;
    var k := FirstCrlf(s).value;
    assert s == s[..k] + [s[k], s[k + 1]] + s[k + 2..];
  }

  lemma PrintIsLine(n: int)
    ensures OneLine(Print(n)) && (n >= 0 ==> Print(n) == Dec(n))
  {
    DecDigits(if n < 0 then -n else n);
  }

  lemma MinusOne()
    ensures Print(-1) == [45, 49]
  {
  }

  lemma ReadNumber(n: int, rest: seq<byte>)
    requires IsInt64(n)
    ensures TakeLine(Print(n) + [13, 10] + rest) == Done(Print(n), rest)
    ensures ParseInt(Print(n)) == Some(n)
  {
    PrintIsLine(n);
    ReadLine(Print(n), rest);
    ParsePrint(n);
  }

  // ----- One item

  lemma ReadLineItem(level: nat, v: Reply, w: seq<byte>, rest: seq<byte>)
    requires level <= MAX_LEVEL && Sends(level, v, w) && (v.Status? || v.Error? || v.Integer?)
    ensures ParseItem(level, w + rest) == Done(v, rest)
  {
    hide TakeLine;
    hide ParseInt;
    hide Print;
    hide ParseItems;
    var t := if v.Integer? then Print(v.value) else v.text;
    assert (w + rest)[1..] == t + [13, 10] + rest;
    if v.Integer? {
      ReadNumber(v.value, rest);
    } else {
      ReadLine(t, rest);
    }
    assert ParseBody(level, w[0], (w + rest)[1..]) == Done(v, rest);
  }

  lemma ReadNil(level: nat, w: seq<byte>, rest: seq<byte>)
    requires level <= MAX_LEVEL && Sends(level, Nil, w)
    ensures ParseItem(level, w + rest) == Done(Nil, rest)
  {
    hide TakeLine;
    hide ParseInt;
    hide ParseItems;
    MinusOne();
    assert (w + rest)[1..] == Print(-1) + [13, 10] + rest;
    ReadNumber(-1, rest);
    assert ParseBody(level, w[0], (w + rest)[1..]) == Done(Nil, rest);
  }

  lemma ReadBulk(level: nat, t: seq<byte>, w: seq<byte>, rest: seq<byte>)
    requires level <= MAX_LEVEL && Sends(level, Bulk(t), w)
    ensures ParseItem(level, w + rest) == Done(Bulk(t), rest)
  {
    hide TakeLine;
    hide ParseInt;
    hide ParseItems;
    hide Dec;
    var after := t + w[|w| - 2..] + rest;
    assert w == w[..|w| - 2] + w[|w| - 2..];
    assert (w + rest)[1..] == Dec(|t|) + [13, 10] + after;
    ReadNumber(|t|, after);
    assert after[..|t|] == t && after[|t| + 2..] == rest;
    assert ParseBody(level, w[0], (w + rest)[1..]) == Done(Bulk(t), rest);
  }

  /** What was sent is read back, whatever follows. */
  lemma {:induction false} ReadSent(level: nat, v: Reply, w: seq<byte>, rest: seq<byte>)
    requires level <= MAX_LEVEL && Sends(level, v, w)
    ensures ParseItem(level, w + rest) == Done(v, rest)
    decreases v
  {
    match v
    case Status(_) => ReadLineItem(level, v, w, rest);
    case Error(_) => ReadLineItem(level, v, w, rest);
    case Integer(_) => ReadLineItem(level, v, w, rest);
    case Bulk(t) => ReadBulk(level, t, w, rest);
    case Nil => ReadNil(level, w, rest);
    case Array(vs) =>
      var es :| w == [42] + Dec(|vs|) + [13, 10] + es && SendsAll(level + 1, vs, es);
      ReadAllSent(level + 1, vs, es, rest);
      ReadArray(level, vs, w, es, rest);
  }

  lemma {:induction false} ReadAllSent(level: nat, vs: seq<Reply>, w: seq<byte>, rest: seq<byte>)
    requires level <= MAX_LEVEL && SendsAll(level, vs, w)
    ensures ParseItems(level, |vs|, w + rest) == Done(vs, rest)
    decreases vs
  {
    hide ParseItem;
    hide Sends;
    if vs == [] {
      assert w + rest == rest;
    } else {
      var k :| 0 <= k <= |w| && Sends(level, vs[0], w[..k]) && SendsAll(level, vs[1..], w[k..]);
      assert w + rest == w[..k] + (w[k..] + rest);
      ReadSent(level, vs[0], w[..k], w[k..] + rest);
      ReadAllSent(level, vs[1..], w[k..], rest);
      assert [vs[0]] + vs[1..] == vs;
    }
  }

  lemma ReadOpening(level: nat, n: nat, items: seq<byte>)
    requires level < 8 && n <= INT_MAX
    ensures ParseHead(level, STAR, Dec(n) + [13, 10] + items) ==
            Done(if n == 0 then Value(Array([])) else Open(n), items)
  {
    hide TakeLine;
    hide ParseInt;
    hide Dec;
    ReadNumber(n, items);
  }

  lemma ReadArray(level: nat, vs: seq<Reply>, w: seq<byte>, es: seq<byte>, rest: seq<byte>)
    requires level < 8 && |vs| <= INT_MAX && w == [42] + Dec(|vs|) + [13, 10] + es
    requires ParseItems(level + 1, |vs|, es + rest) == Done(vs, rest)
    ensures ParseItem(level, w + rest) == Done(Array(vs), rest)
  {
    hide ParseHead;
    hide Dec;
    assert (w + rest)[1..] == Dec(|vs|) + [13, 10] + (es + rest);
    ReadOpening(level, |vs|, es + rest);
    assert ParseBody(level, w[0], (w + rest)[1..]) == Done(Array(vs), rest);
  }

  // ----- Nothing else is read

  /** The bytes an item took. */
  ghost function Taken(s: seq<byte>, rest: seq<byte>): (w: seq<byte>)
    requires |rest| <= |s|
  {
    s[..|s| - |rest|]
  }

  lemma NumberRead(s: seq<byte>)
    requires TakeLine(s).Done? && ParseInt(TakeLine(s).value).Some?
    ensures var n := ParseInt(TakeLine(s).value).value;
            IsInt64(n) && s == Print(n) + [13, 10] + TakeLine(s).rest
  {
    hide TakeLine;
    LineRead(s);
  }

  lemma LineItemSent(level: nat, ty: byte, s: seq<byte>, v: Reply, rest: seq<byte>)
    requires level <= MAX_LEVEL && ty in {PLUS, DASH, COLON} && ParseHead(level, ty, s) == Done(Value(v), rest)
    ensures Sends(level, v, Taken([ty] + s, rest)) && [ty] + s == Taken([ty] + s, rest) + rest
  {
    hide TakeLine;
    hide ParseInt;
    hide Print;
    LineRead(s);
    if ty == COLON {
      NumberRead(s);
    }
    var t := TakeLine(s).value;
    assert [ty] + s == [ty] + t + [13, 10] + rest;
  }

  lemma BulkItemSent(level: nat, s: seq<byte>, v: Reply, rest: seq<byte>)
    requires level <= MAX_LEVEL && ParseHead(level, DOLLAR, s) == Done(Value(v), rest)
    ensures Sends(level, v, Taken([DOLLAR] + s, rest)) && [DOLLAR] + s == Taken([DOLLAR] + s, rest) + rest
  {
    hide TakeLine;
    hide ParseInt;
    hide Dec;
    hide Print;
    NumberRead(s);
    var n, after := ParseInt(TakeLine(s).value).value, TakeLine(s).rest;
    PrintIsLine(n);
    if n == -1 {
      MinusOne();
      assert [DOLLAR] + s == [36, 45, 49, 13, 10] + rest;
    } else {
      var t := after[..n];
      assert after == t + after[n..n + 2] + rest;
      assert [DOLLAR] + s == ([36] + Dec(n) + [13, 10] + t) + after[n..n + 2] + rest;
    }
  }

  lemma ArraySent(level: nat, s: seq<byte>, vs: seq<Reply>, items: seq<byte>, rest: seq<byte>)
    requires level < 8 && |vs| <= 0x7fff_ffff && s == [42] + Dec(|vs|) + [13, 10] + items
    requires |rest| <= |items| && items == Taken(items, rest) + rest && SendsAll(level + 1, vs, Taken(items, rest))
    ensures |rest| <= |s| && Sends(level, Array(vs), Taken(s, rest)) && s == Taken(s, rest) + rest
  {
    hide Dec;
    hide SendsAll;
    assert s == [42] + Dec(|vs|) + [13, 10] + Taken(items, rest) + rest;
    assert Taken(s, rest) == [42] + Dec(|vs|) + [13, 10] + Taken(items, rest);
  }

  lemma ShortArraySent(level: nat, s: seq<byte>, v: Reply, rest: seq<byte>)
    requires level <= MAX_LEVEL && ParseHead(level, STAR, s) == Done(Value(v), rest)
    ensures Sends(level, v, Taken([STAR] + s, rest)) && [STAR] + s == Taken([STAR] + s, rest) + rest
  {
    hide TakeLine;
    hide ParseInt;
    hide Sends;
    NumberRead(s);
    if v == Nil {
      NilSent(level, s, rest);
    } else {
      assert [STAR] + s == [42] + Dec(0) + [13, 10] + rest;
      assert SendsAll(level + 1, [], Taken(rest, rest));
      ArraySent(level, [STAR] + s, [], rest, rest);
    }
  }

  lemma NilSent(level: nat, s: seq<byte>, rest: seq<byte>)
    requires level < 8 && s == Print(-1) + [13, 10] + rest
    ensures Sends(level, Nil, Taken([STAR] + s, rest)) && [STAR] + s == Taken([STAR] + s, rest) + rest
  {
    MinusOne();
    assert [STAR] + s == [42, 45, 49, 13, 10] + rest;
  }

  lemma OpeningSent(level: nat, s: seq<byte>, n: nat, rest: seq<byte>)
    requires level <= MAX_LEVEL && ParseHead(level, STAR, s) == Done(Open(n), rest)
    ensures level < 8 && n <= 0x7fff_ffff && [STAR] + s == [42] + Dec(n) + [13, 10] + rest
  {
    hide TakeLine;
    hide ParseInt;
    NumberRead(s);
  }

  /** What is read was sent, and it is exactly the bytes that were taken. */
  lemma {:induction false} SentIfRead(level: nat, s: seq<byte>)
    requires level <= MAX_LEVEL && ParseItem(level, s).Done?
    ensures var p := ParseItem(level, s);
            Sends(level, p.value, Taken(s, p.rest)) && s == Taken(s, p.rest) + p.rest
    decreases MAX_LEVEL - level, 1, 0
  {
    hide ParseHead;
    hide Sends;
    var p := ParseItem(level, s);
    var ty, body := s[0], s[1..];
    assert s == [ty] + body;
    assert ParseBody(level, ty, body) == p;
    match ParseHead(level, ty, body)
    case Done(Value(v), rest) =>
      if ty == STAR {
        ShortArraySent(level, body, v, rest);
      } else if ty == DOLLAR {
        BulkItemSent(level, body, v, rest);
      } else {
        LineItemSent(level, ty, body, v, rest);
      }
    case Done(Open(n), rest) =>
      OnlyArraysOpen(level, ty, body);
      OpeningSent(level, body, n, rest);
      SentIfAllRead(level + 1, n, rest);
      ArraySent(level, s, p.value.elements, rest, p.rest);
  }

  lemma OnlyArraysOpen(level: nat, ty: byte, s: seq<byte>)
    requires level <= MAX_LEVEL && IsTypeByte(ty)
    ensures ParseHead(level, ty, s).Done? && ParseHead(level, ty, s).value.Open? ==> ty == STAR
  {
  }

  lemma {:induction false} SentIfAllRead(level: nat, n: nat, s: seq<byte>)
    requires level <= MAX_LEVEL && ParseItems(level, n, s).Done?
    ensures var p := ParseItems(level, n, s);
            SendsAll(level, p.value, Taken(s, p.rest)) && s == Taken(s, p.rest) + p.rest
    decreases MAX_LEVEL - level, 2, n
  {
    hide ParseItem;
    hide Sends;
    if n > 0 {
      var p := ParseItem(level, s);
      var q := ParseItems(level, n - 1, p.rest);
      var w := Taken(s, q.rest);
      var k := |s| - |p.rest|;
      SentIfRead(level, s);
      SentIfAllRead(level, n - 1, p.rest);
      assert w[..k] == Taken(s, p.rest) && w[k..] == Taken(p.rest, q.rest);
      assert ([p.value] + q.value)[1..] == q.value;
    }
  }

  /** The parser finds `v` in front of `rest` if and only if that is what was sent. */
  lemma ReadsWhatWasSent(level: nat, s: seq<byte>, v: Reply, rest: seq<byte>)
    requires level <= MAX_LEVEL
    ensures ParseItem(level, s) == Done(v, rest) <==> exists w :: Sends(level, v, w) && s == w + rest
  {
    hide Sends;
    if ParseItem(level, s) == Done(v, rest) {
      SentIfRead(level, s);
    }
    if w :| Sends(level, v, w) && s == w + rest {
      ReadSent(level, v, w, rest);
    }
  }

  // ----- The form the server writes

  lemma {:induction false} WrittenIsSent(level: nat, v: Reply)
    requires Sendable(level, v)
    ensures Sends(level, v, Written(v))
    decreases v
  {
    match v
    case Bulk(t) => assert Written(v)[..|Written(v)| - 2] == [36] + Dec(|t|) + [13, 10] + t;
    case Array(vs) => AllWrittenIsSent(level + 1, vs);
    case _ =>
  }

  lemma {:induction false} AllWrittenIsSent(level: nat, vs: seq<Reply>)
    requires forall x | x in vs :: Sendable(level, x)
    ensures SendsAll(level, vs, WrittenAll(vs))
    decreases vs
  {
    hide Written;
    hide Sends;
    if vs != [] {
      WrittenIsSent(level, vs[0]);
      AllWrittenIsSent(level, vs[1..]);
      var w, k := WrittenAll(vs), |Written(vs[0])|;
      assert w[..k] == Written(vs[0]) && w[k..] == WrittenAll(vs[1..]);
    }
  }

  /** Every reply comes out as it was written, whatever follows. */
  lemma ReadReply(level: nat, v: Reply, rest: seq<byte>)
    requires level <= MAX_LEVEL && Sendable(level, v)
    ensures ParseItem(level, Written(v) + rest) == Done(v, rest)
  {
    hide Sends;
    hide Written;
    WrittenIsSent(level, v);
    ReadSent(level, v, Written(v), rest);
  }

  lemma {:induction false} ReadReplies(vs: seq<Reply>)
    requires forall v | v in vs :: Sendable(0, v)
    ensures Stream(WrittenAll(vs)) == Transcript(vs, None)
  {
    hide ParseItem;
    hide Written;
    if vs == [] {
      NothingToRead();
    } else {
      ReadReply(0, vs[0], WrittenAll(vs[1..]));
      ReadReplies(vs[1..]);
      assert [vs[0]] + vs[1..] == vs;
    }
  }

  lemma NothingToRead()
    ensures ParseItem(0, []) == More
  {
  }

  /** The same through the resumable reader: whatever replies a server writes, and however
      their bytes are cut up, a drained session has emitted them and is not in error. */
  lemma RepliesThroughReader(vs: seq<Reply>, ops: seq<Machine.Op>)
    requires forall v | v in vs :: Sendable(0, v)
    requires Machine.Fed(ops) == WrittenAll(vs) && Machine.Drained(ops)
    ensures Machine.Outcome(Machine.RunSession(ops)) == Transcript(vs, None)
  {
    ReadReplies(vs);
    Machine.ChunkingInvariance(ops);
  }

  /** As long as any byte of a reply is missing, the parser waits. */
  lemma PartOfReplyWaits(v: Reply, w: seq<byte>, n: nat)
    requires Sends(0, v, w) && n < |w|
    ensures ParseItem(0, w[..n]) == More
  {
    hide ParseItem;
    hide Sends;
    assert w[..n] + w[n..] == w && w + [] == w;
    ReadSent(0, v, w, []);
    Machine.ItemExtends(w[..n], w[n..]);
  }

  // ----- Malformed items

  lemma NumberInRange(line: seq<byte>)
    ensures ParseInt(line).Some? ==> IsInt64(ParseInt(line).value)
  {
  }

  /** The error that a first byte, a line item or the length of a bulk string or an array
      leads to. */
  lemma MalformedLines(level: nat, line: seq<byte>, rest: seq<byte>)
    requires level <= 8 && OneLine(line)
    ensures ParseItem(level, [58] + line + [13, 10] + rest) == Fail(BadInteger) <==> ParseInt(line).None?
    ensures ParseItem(level, [36] + line + [13, 10] + rest) == Fail(BadBulkLength) <==> ParseInt(line).None?
    ensures ParseItem(level, [36] + line + [13, 10] + rest) == Fail(BulkLengthOutOfRange) <==>
            ParseInt(line).Some? && ParseInt(line).value < -1
    ensures level < 8 && ParseInt(line).None? ==>
              ParseItem(level, [42] + line + [13, 10] + rest) == Fail(BadMultiBulkLength)
    ensures level < 8 && ParseInt(line).Some? && !(-1 <= ParseInt(line).value <= 0x7fff_ffff) ==>
              ParseItem(level, [42] + line + [13, 10] + rest) == Fail(MultiBulkLengthOutOfRange)
    ensures level == 8 ==> ParseItem(level, [42] + rest) == Fail(TooDeep)
    ensures line != [] && line[0] !in {43, 45, 58, 36, 42} ==> ParseItem(level, line) == Fail(BadTypeByte(line[0]))
  {
    NumberInRange(line);
    hide ParseInt;
    hide TakeLine;
    hide ParseItems;
    ReadLine(line, rest);
    assert ([58] + line + [13, 10] + rest)[1..] == line + [13, 10] + rest;
    assert ([36] + line + [13, 10] + rest)[1..] == line + [13, 10] + rest;
    assert ([42] + line + [13, 10] + rest)[1..] == line + [13, 10] + rest;
    assert ParseItem(level, [58] + line + [13, 10] + rest) == ParseBody(level, COLON, line + [13, 10] + rest);
    assert ParseItem(level, [36] + line + [13, 10] + rest) == ParseBody(level, DOLLAR, line + [13, 10] + rest);
    assert ParseItem(level, [42] + line + [13, 10] + rest) == ParseBody(level, STAR, line + [13, 10] + rest);
  }

  /** An array fails with the error of its first malformed element. */
  lemma BadElement(level: nat, n: nat, vs: seq<Reply>, w: seq<byte>, bad: seq<byte>, f: Fault)
    requires level < 8 && |vs| < n <= INT_MAX && SendsAll(level + 1, vs, w) && ParseItem(level + 1, bad) == Fail(f)
    ensures ParseItem(level, [42] + Dec(n) + [13, 10] + w + bad) == Fail(f)
  {
    hide ParseInt;
    hide TakeLine;
    hide ParseItems;
    hide ParseItem;
    hide Dec;
    hide SendsAll;
    var s := [42] + Dec(n) + [13, 10] + w + bad;
    assert s[1..] == Dec(n) + [13, 10] + (w + bad);
    PrintIsLine(n);
    ReadNumber(n, w + bad);
    FailingItems(level + 1, n, vs, w, bad, f);
    StartsArray(level, s);
  }

  lemma StartsArray(level: nat, s: seq<byte>)
    requires level <= MAX_LEVEL && s != [] && s[0] == 42
    ensures ParseItem(level, s) == ParseBody(level, STAR, s[1..])
  {
  }

  lemma {:induction false} FailingItems(level: nat, n: nat, vs: seq<Reply>, w: seq<byte>, bad: seq<byte>, f: Fault)
    requires level <= MAX_LEVEL && |vs| < n && SendsAll(level, vs, w) && ParseItem(level, bad) == Fail(f)
    ensures ParseItems(level, n, w + bad) == Fail(f)
    decreases vs
  {
    hide ParseItem;
    hide Sends;
    if vs == [] {
      assert w + bad == bad;
    } else {
      var k :| 0 <= k <= |w| && Sends(level, vs[0], w[..k]) && SendsAll(level, vs[1..], w[k..]);
      assert w + bad == w[..k] + (w[k..] + bad);
      ReadSent(level, vs[0], w[..k], w[k..] + bad);
      FailingItems(level, n - 1, vs[1..], w[k..], bad, f);
    }
  }
}
