/** How deep the reader lets arrays nest. */
module Nesting {
  import opened Bytes
  import opened Resp
  import Decimal
  import Machine
  import Replies

  /** The header of an array of one element. */
  const OPEN_ONE: seq<byte> := [STAR, 49, CR, LF]

  /** The integer 0. */
  const LEAF: seq<byte> := [COLON, 48, CR, LF]

  /** The integer 0 in `k` arrays of one element each. */
  function Wire(k: nat): seq<byte> {
    if k == 0 then LEAF else OPEN_ONE + Wire(k - 1)
  }

  function Nested(k: nat): Reply {
    if k == 0 then Integer(0) else Array([Nested(k - 1)])
  }

  lemma ReadLeaf(level: nat, rest: seq<byte>)
    requires level <= MAX_LEVEL
    ensures ParseItem(level, LEAF + rest) == Done(Integer(0), rest)
  {
    hide Decimal.ParseInt;
    var s := LEAF + rest;
    assert s[1..] == Decimal.Dec(0) + CRLF + rest;
    Replies.ReadNumber(0, rest);
    assert ParseBody(level, COLON, s[1..]) == Done(Integer(0), rest);
  }

  lemma ReadHeader(level: nat, inner: seq<byte>)
    requires level < MAX_LEVEL
    ensures ParseHead(level, STAR, (OPEN_ONE + inner)[1..]) == Done(Open(1), inner)
  {
    hide Decimal.ParseInt;
    hide TakeLine;
    assert (OPEN_ONE + inner)[1..] == Decimal.Dec(1) + CRLF + inner;
    Replies.ReadNumber(1, inner);
  }

  /** An array of one element is read as its element, one level deeper. */
  lemma ReadOpening(level: nat, inner: seq<byte>)
    requires level <= MAX_LEVEL
    ensures ParseItem(level, OPEN_ONE + inner) ==
            if level == MAX_LEVEL then Fail(TooDeep)
            else
              match ParseItem(level + 1, inner)
              case More => More
              case Fail(f) => Fail(f)
              case Done(v, rest) => Done(Array([v]), rest)
  {
    hide TakeInt;
    hide ParseItems;
    if level < MAX_LEVEL {
      ReadHeader(level, inner);
      OneItem(level + 1, inner);
    }
  }

  lemma OneItem(level: nat, s: seq<byte>)
    requires level <= MAX_LEVEL
    ensures ParseItems(level, 1, s) ==
            match ParseItem(level, s)
            case More => More
            case Fail(f) => Fail(f)
            case Done(v, rest) => Done([v], rest)
  {
    hide ParseItem;
    var p := ParseItem(level, s);
    if p.Done? {
      assert ParseItems(level, 0, p.rest) == Done([], p.rest);
      assert [p.value] + [] == [p.value];
    }
  }

  lemma {:induction false} ReadNested(level: nat, k: nat, rest: seq<byte>)
    requires level <= MAX_LEVEL
    ensures ParseItem(level, Wire(k) + rest) ==
            if level + k <= MAX_LEVEL then Done(Nested(k), rest) else Fail(TooDeep)
    decreases k
  {
    hide ParseItem;
    if k == 0 {
      ReadLeaf(level, rest);
    } else {
      assert Wire(k) + rest == OPEN_ONE + (Wire(k - 1) + rest);
      ReadOpening(level, Wire(k - 1) + rest);
      if level < MAX_LEVEL {
        ReadNested(level + 1, k - 1, rest);
      }
    }
  }

  /** Eight nested arrays are read; the ninth header is an error. */
  lemma DepthLimit(k: nat)
    ensures Machine.Run(Machine.Reading([], None, Wire(k))) ==
            if k <= 8 then Machine.Complete(Nested(k), []) else Machine.Broken(TooDeep)
  {
    ReadNested(0, k, []);
    assert Wire(k) + [] == Wire(k);
    Machine.RunRefinesParser(Wire(k));
  }
}
