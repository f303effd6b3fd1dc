/** Lines as a caller writes them for `sdssplitargs`: arguments of bare text and text in
    double or single quotes, with blanks around them. What the splitter makes of a line is
    shown to be the meanings of its arguments, or the error of unbalanced quotes. */
module Lines {
  import opened Bytes
  import opened Quoting

  /** What may stand between double quotes. */
  datatype Item =
    | Raw(b: byte)               // any byte but a double quote or a backslash
    | Escaped(c: byte)           // a backslash and a byte
    | Hex(high: byte, low: byte) // \x and two hexadecimal digits

  predicate IsHex(c: byte) {
    48 <= c <= 57 || 65 <= c <= 70 || 97 <= c <= 102
  }

  predicate IsBlank(c: byte) {
    9 <= c <= 13 || c == 32
  }

  function DigitValue(c: byte): (v: int)
    requires IsHex(c)
    ensures 0 <= v < 16
  {
    if c <= 57 then c - 48 else if c <= 70 then c - 55 else c - 87
  }

  ghost predicate IsItem(item: Item) {
    match item
    case Raw(b) => b !in {0, 34, 92}
    case Escaped(c) => c != 0
    case Hex(h, l) => IsHex(h) && IsHex(l)
  }

  function ItemSpelling(item: Item): (s: seq<byte>) {
    match item
    case Raw(b) => [b]
    case Escaped(c) => [92, c]
    case Hex(h, l) => [92, 120, h, l]
  }

  function ItemMeaning(item: Item): (b: byte)
    requires IsItem(item)
  {
    match item
    case Raw(b) => b
    case Escaped(c) =>
      if c == 110 then 10 else if c == 114 then 13 else if c == 116 then 9
      else if c == 98 then 8 else if c == 97 then 7 else c
    case Hex(h, l) => DigitValue(h) * 16 + DigitValue(l)
  }

  function ItemsSpelling(items: seq<Item>): (s: seq<byte>) {
    if items == [] then [] else ItemSpelling(items[0]) + ItemsSpelling(items[1..])
  }

  /** Items, in front of what follows them: \x is only itself if no two digits follow. */
  ghost predicate AreItems(items: seq<Item>, rest: seq<byte>) {
    items != [] ==>
      var after := ItemsSpelling(items[1..]) + rest;
      && IsItem(items[0]) && AreItems(items[1..], rest)
      && (items[0] == Escaped(120) ==> !(|after| >= 2 && IsHex(after[0]) && IsHex(after[1])))
  }

  function ItemsMeaning(items: seq<Item>): (s: seq<byte>)
    requires forall item | item in items :: IsItem(item)
  {
    if items == [] then [] else [ItemMeaning(items[0])] + ItemsMeaning(items[1..])
  }

  /** Between single quotes only a single quote is escaped. */
  function SingleSpelling(t: seq<byte>): (s: seq<byte>) {
    if t == [] then [] else (if t[0] == 39 then [92, 39] else [t[0]]) + SingleSpelling(t[1..])
  }

  datatype Quoted = Nothing | Double(items: seq<Item>) | Single(text: seq<byte>)

  /** An argument: bare text, and then perhaps text in quotes. */
  datatype Arg = Arg(bare: seq<byte>, quoted: Quoted)

  function QuotedSpelling(q: Quoted): (s: seq<byte>) {
    match q
    case Nothing => []
    case Double(items) => [34] + ItemsSpelling(items) + [34]
    case Single(t) => [39] + SingleSpelling(t) + [39]
  }

  function Spelling(a: Arg): (s: seq<byte>) {
    a.bare + QuotedSpelling(a.quoted)
  }

  ghost predicate IsBare(bare: seq<byte>) {
    && (forall b | b in bare :: b !in {0, 9, 10, 13, 32, 34, 39})
    && (bare != [] ==> bare[0] !in {11, 12})
  }

  /** An argument, in front of what follows it. */
  ghost predicate IsArg(a: Arg, rest: seq<byte>) {
    && IsBare(a.bare)
    && match a.quoted
       case Nothing => a.bare != [] && (rest == [] || rest[0] in {9, 10, 13, 32})
       case Double(items) =>
         && (forall item | item in items :: IsItem(item)) && AreItems(items, [34] + rest)
         && (rest == [] || IsBlank(rest[0]))
       case Single(t) => IsSingle(t) && (t != [] ==> t[|t| - 1] != 92) && (rest == [] || IsBlank(rest[0]))
  }

  ghost predicate IsSingle(t: seq<byte>) {
    0 !in t
  }

  function Meaning(a: Arg): (s: seq<byte>)
    requires a.quoted.Double? ==> forall item | item in a.quoted.items :: IsItem(item)
  {
    match a.quoted
    case Nothing => a.bare
    case Double(items) => a.bare + ItemsMeaning(items)
    case Single(t) => a.bare + t
  }

  // ----- Inside quotes

  lemma ReadItem(item: Item, current: seq<byte>, after: seq<byte>)
    requires IsItem(item)
    requires item == Escaped(120) ==> !(|after| >= 2 && IsHex(after[0]) && IsHex(after[1]))
    ensures ScanToken(InQuotes, current, ItemSpelling(item) + after) ==
            ScanToken(InQuotes, current + [ItemMeaning(item)], after)
  {
    hide ScanToken;
    var s := ItemSpelling(item) + after;
    ScanStep(InQuotes, current, s);
    assert Drop(s, |ItemSpelling(item)|) == after;
    assert NextMove(InQuotes, s) == Take([ItemMeaning(item)], |ItemSpelling(item)|);
  }

  lemma {:induction false} ReadItems(items: seq<Item>, current: seq<byte>, rest: seq<byte>)
    requires AreItems(items, rest) && forall item | item in items :: IsItem(item)
    ensures ScanToken(InQuotes, current, ItemsSpelling(items) + rest) ==
            ScanToken(InQuotes, current + ItemsMeaning(items), rest)
    decreases |items|
  {
    hide ScanToken;
    hide ItemSpelling;
    hide ItemMeaning;
    hide IsItem;
    if items == [] {
      assert ItemsSpelling(items) + rest == rest && current + ItemsMeaning(items) == current;
    } else {
      var after := ItemsSpelling(items[1..]) + rest;
      var one := [ItemMeaning(items[0])];
      assert ItemsSpelling(items) + rest == ItemSpelling(items[0]) + after;
      ReadItem(items[0], current, after);
      ReadItems(items[1..], current + one, rest);
      assert (current + one) + ItemsMeaning(items[1..]) == current + (one + ItemsMeaning(items[1..]));
    }
  }

  lemma {:induction false} ReadSingle(t: seq<byte>, current: seq<byte>, rest: seq<byte>)
    requires IsSingle(t) && (rest != [] && rest[0] == 39 && t != [] ==> t[|t| - 1] != 92)
    ensures ScanToken(InApostrophes, current, SingleSpelling(t) + rest) == ScanToken(InApostrophes, current + t, rest)
    decreases |t|
  {
    hide ScanToken;
    var s := SingleSpelling(t) + rest;
    if t == [] {
      assert s == rest && current + t == current;
    } else {
      var after := SingleSpelling(t[1..]) + rest;
      var one := if t[0] == 39 then [92, 39] else [t[0]];
      assert s == one + after && Drop(s, |one|) == after;
      if t[0] == 92 {
        NotEscaping(t, rest);
      }
      ScanStep(InApostrophes, current, s);
      assert NextMove(InApostrophes, s) == Take([t[0]], |one|);
      ReadSingle(t[1..], current + [t[0]], rest);
      assert current + [t[0]] + t[1..] == current + t;
    }
  }

  /** A backslash is not in front of a single quote, unless it escapes it. */
  lemma NotEscaping(t: seq<byte>, rest: seq<byte>)
    requires t != [] && t[0] == 92 && (rest != [] && rest[0] == 39 ==> t[|t| - 1] != 92)
    ensures var after := SingleSpelling(t[1..]) + rest; after == [] || after[0] != 39
  {
    var after := SingleSpelling(t[1..]) + rest;
    if t[1..] == [] {
      assert after == rest;
    }
  }

  // ----- One argument

  lemma {:induction false} ReadBare(bare: seq<byte>, current: seq<byte>, rest: seq<byte>)
    requires forall b | b in bare :: b !in {0, 9, 10, 13, 32, 34, 39}
    ensures ScanToken(Plain, current, bare + rest) == ScanToken(Plain, current + bare, rest)
    decreases |bare|
  {
    hide ScanToken;
    if bare == [] {
      assert bare + rest == rest && current + bare == current;
    } else {
      var s := bare + rest;
      assert bare[0] in bare && forall b | b in bare[1..] :: b in bare;
      assert Drop(s, 1) == bare[1..] + rest;
      ScanStep(Plain, current, s);
      ReadBare(bare[1..], current + [bare[0]], rest);
      assert current + [bare[0]] + bare[1..] == current + bare;
    }
  }

  lemma EndOfBare(current: seq<byte>, rest: seq<byte>)
    requires rest == [] || rest[0] in {9, 10, 13, 32}
    ensures ScanToken(Plain, current, rest) == Token(current, Drop(rest, 1))
  {
    hide ScanToken;
    ScanStep(Plain, current, rest);
  }

  lemma OpenQuotes(current: seq<byte>, rest: seq<byte>)
    ensures ScanToken(Plain, current, [34] + rest) == ScanToken(InQuotes, current, rest)
    ensures ScanToken(Plain, current, [39] + rest) == ScanToken(InApostrophes, current, rest)
  {
    hide ScanToken;
    ScanStep(Plain, current, [34] + rest);
    ScanStep(Plain, current, [39] + rest);
    assert Drop([34] + rest, 1) == rest && Drop([39] + rest, 1) == rest;
  }

  /** A closing quote ends the token if a blank or nothing follows, and is an error otherwise. */
  lemma CloseQuotes(current: seq<byte>, rest: seq<byte>)
    requires 0 !in rest
    ensures ScanToken(InQuotes, current, [34] + rest) ==
            if rest == [] || IsBlank(rest[0]) then Token(current, rest) else Unbalanced
    ensures ScanToken(InApostrophes, current, [39] + rest) ==
            if rest == [] || IsBlank(rest[0]) then Token(current, rest) else Unbalanced
    ensures ScanToken(InQuotes, current, []) == ScanToken(InApostrophes, current, []) == Unbalanced
  {
    hide ScanToken;
    ScanStep(InQuotes, current, [34] + rest);
    ScanStep(InApostrophes, current, [39] + rest);
    ScanStep(InQuotes, current, []);
    ScanStep(InApostrophes, current, []);
    assert Drop([34] + rest, 1) == rest && Drop([39] + rest, 1) == rest;
    assert rest != [] ==> rest[0] in rest;
  }

  lemma ReadDouble(items: seq<Item>, current: seq<byte>, rest: seq<byte>)
    requires (forall item | item in items :: IsItem(item)) && AreItems(items, [34] + rest) && 0 !in rest
    ensures ScanToken(Plain, current, [34] + ItemsSpelling(items) + [34] + rest) ==
            if rest == [] || IsBlank(rest[0]) then Token(current + ItemsMeaning(items), rest) else Unbalanced
  {
    hide ScanToken;
    hide IsItem;
    hide ItemsMeaning;
    assert [34] + ItemsSpelling(items) + [34] + rest == [34] + (ItemsSpelling(items) + ([34] + rest));
    OpenQuotes(current, ItemsSpelling(items) + ([34] + rest));
    ReadItems(items, current, [34] + rest);
    CloseQuotes(current + ItemsMeaning(items), rest);
  }

  lemma ReadApostrophes(t: seq<byte>, current: seq<byte>, rest: seq<byte>)
    requires IsSingle(t) && (t != [] ==> t[|t| - 1] != 92) && 0 !in rest
    ensures ScanToken(Plain, current, [39] + SingleSpelling(t) + [39] + rest) ==
            if rest == [] || IsBlank(rest[0]) then Token(current + t, rest) else Unbalanced
  {
    hide ScanToken;
    hide IsSingle;
    assert [39] + SingleSpelling(t) + [39] + rest == [39] + (SingleSpelling(t) + ([39] + rest));
    OpenQuotes(current, SingleSpelling(t) + ([39] + rest));
    ReadSingle(t, current, [39] + rest);
    CloseQuotes(current + t, rest);
  }

  /** A token is read as the meaning of its argument; a bare one takes the blank behind it
      along. */
  lemma ReadArg(a: Arg, rest: seq<byte>)
    requires IsArg(a, rest) && 0 !in rest
    ensures ScanToken(Plain, [], Spelling(a) + rest) == Token(Meaning(a), if a.quoted.Nothing? then Drop(rest, 1) else rest)
  {
    hide ScanToken;
    hide IsItem;
    hide ItemsMeaning;
    var q := QuotedSpelling(a.quoted) + rest;
    assert Spelling(a) + rest == a.bare + q;
    ReadBare(a.bare, [], q);
    assert [] + a.bare == a.bare;
    match a.quoted
    case Nothing =>
      assert q == rest;
      EndOfBare(a.bare, rest);
    case Double(items) => ReadDouble(items, a.bare, rest);
    case Single(t) => ReadApostrophes(t, a.bare, rest);
  }

  // ----- Whole lines

  lemma {:induction false} SkipAll(blanks: seq<byte>, rest: seq<byte>)
    requires forall b | b in blanks :: IsBlank(b)
    ensures SkipBlanks(blanks + rest) == SkipBlanks(rest)
    decreases |blanks|
  {
    var s := blanks + rest;
    if blanks == [] {
      assert s == rest;
    } else {
      assert blanks[0] in blanks && forall b | b in blanks[1..] :: b in blanks;
      assert s[1..] == blanks[1..] + rest;
      SkipAll(blanks[1..], rest);
    }
  }

  /** Blanks in front of a line do not matter. */
  lemma SplitBlanks(blanks: seq<byte>, rest: seq<byte>)
    requires forall b | b in blanks :: IsBlank(b)
    ensures Split(blanks + rest) == Split(rest)
  {
    SkipAll(blanks, rest);
  }

  /** A line: each argument has blanks in front of it, and `tail` follows the last. */
  function Layout(args: seq<Arg>, blanks: seq<seq<byte>>, tail: seq<byte>): (line: seq<byte>)
    requires |blanks| == |args|
  {
    if args == [] then tail else blanks[0] + Spelling(args[0]) + Layout(args[1..], blanks[1..], tail)
  }

  ghost predicate WellSpaced(args: seq<Arg>, blanks: seq<seq<byte>>, tail: seq<byte>) {
    && |blanks| == |args|
    && (forall i | 0 <= i < |args| ::
          && IsArg(args[i], Layout(args[i + 1..], blanks[i + 1..], tail))
          && forall b | b in blanks[i] :: IsBlank(b))
    && 0 !in Layout(args, blanks, tail)
  }

  function Meanings(args: seq<Arg>): (argv: seq<seq<byte>>)
    requires forall a | a in args && a.quoted.Double? :: forall item | item in a.quoted.items :: IsItem(item)
  {
    if args == [] then [] else [Meaning(args[0])] + Meanings(args[1..])
  }

  lemma StartsToken(a: Arg, rest: seq<byte>)
    requires IsArg(a, rest)
    ensures SkipBlanks(Spelling(a) + rest) == Spelling(a) + rest != []
  {
    var s := Spelling(a) + rest;
    if a.bare != [] {
      assert a.bare[0] in a.bare && s[0] == a.bare[0];
    } else {
      assert s[0] == QuotedSpelling(a.quoted)[0];
    }
  }

  /** One argument in front of a line. */
  lemma SplitArg(blanks: seq<byte>, a: Arg, rest: seq<byte>)
    requires IsArg(a, rest) && 0 !in rest && forall b | b in blanks :: IsBlank(b)
    ensures Split(blanks + Spelling(a) + rest) == Prepended([Meaning(a)], Split(rest))
  {
    hide ScanToken;
    hide SkipBlanks;
    hide IsArg;
    hide Meaning;
    hide Spelling;
    var s := Spelling(a) + rest;
    assert blanks + Spelling(a) + rest == blanks + s;
    SplitBlanks(blanks, s);
    StartsToken(a, rest);
    ReadArg(a, rest);
    if a.quoted.Nothing? && rest != [] {
      BlankBehind(a, rest);
      SplitBlanks([rest[0]], rest[1..]);
      assert rest == [rest[0]] + rest[1..];
    }
  }

  lemma BlankBehind(a: Arg, rest: seq<byte>)
    requires IsArg(a, rest) && a.quoted.Nothing? && rest != []
    ensures IsBlank(rest[0])
  {
  }

  /** The arguments of a line are the meanings of what it is made of; what follows them is
      split by itself, and an error in it is an error of the whole line. */
  lemma {:induction false} SplitLine(args: seq<Arg>, blanks: seq<seq<byte>>, tail: seq<byte>)
    requires WellSpaced(args, blanks, tail)
    ensures forall a | a in args && a.quoted.Double? :: forall item | item in a.quoted.items :: IsItem(item)
    ensures Split(Layout(args, blanks, tail)) == Prepended(Meanings(args), Split(tail))
    decreases |args|
  {
    hide Split;
    hide IsArg;
    hide Meaning;
    hide Spelling;
    if args == [] {
      PrependNothing(Split(tail));
    } else {
      LaterArgs(args, blanks, tail);
      SplitLine(args[1..], blanks[1..], tail);
      var rest := Layout(args[1..], blanks[1..], tail);
      SplitArg(blanks[0], args[0], rest);
      IsArgItems(args[0], rest);
      PrependBefore(Meaning(args[0]), Meanings(args[1..]), Split(tail));
    }
  }

  lemma LaterArgs(args: seq<Arg>, blanks: seq<seq<byte>>, tail: seq<byte>)
    requires WellSpaced(args, blanks, tail) && args != []
    ensures WellSpaced(args[1..], blanks[1..], tail)
    ensures IsArg(args[0], Layout(args[1..], blanks[1..], tail)) && forall b | b in blanks[0] :: IsBlank(b)
  {
    hide IsArg;
    hide Spelling;
    var as', bs := args[1..], blanks[1..];
    forall i | 0 <= i < |as'|
      ensures IsArg(as'[i], Layout(as'[i + 1..], bs[i + 1..], tail)) && forall b | b in bs[i] :: IsBlank(b)
    {
      assert as'[i + 1..] == args[i + 2..] && bs[i + 1..] == blanks[i + 2..];
      assert IsArg(args[i + 1], Layout(args[i + 1 + 1..], blanks[i + 1 + 1..], tail));
    }
  }

  lemma IsArgItems(a: Arg, rest: seq<byte>)
    requires IsArg(a, rest)
    ensures a.quoted.Double? ==> forall item | item in a.quoted.items :: IsItem(item)
  {
  }

  lemma PrependBefore(v: seq<byte>, vs: seq<seq<byte>>, more: Option<seq<seq<byte>>>)
    ensures Prepended([v], Prepended(vs, more)) == Prepended([v] + vs, more)
  {
    if more.Some? {
      assert [v] + (vs + more.value) == [v] + vs + more.value;
    }
  }

  // ----- Unbalanced quotes

  /** Text in quotes that is not closed, or that is closed in front of something other than a
      blank, is an error. */
  lemma UnbalancedQuotes(bare: seq<byte>, items: seq<Item>, t: seq<byte>, rest: seq<byte>)
    requires IsBare(bare) && (forall item | item in items :: IsItem(item)) && IsSingle(t)
    requires 0 !in rest && rest != [] && !IsBlank(rest[0])
    ensures AreItems(items, []) ==> Split(bare + ([34] + ItemsSpelling(items))) == None
    ensures AreItems(items, [34] + rest) ==> Split(bare + ([34] + ItemsSpelling(items) + [34] + rest)) == None
    ensures Split(bare + ([39] + SingleSpelling(t))) == None
    ensures (t != [] ==> t[|t| - 1] != 92) ==> Split(bare + ([39] + SingleSpelling(t) + [39] + rest)) == None
  {
    hide ScanToken;
    hide IsItem;
    hide ItemsMeaning;
    hide AreItems;
    if AreItems(items, []) {
      ReadItems(items, bare, []);
      assert ItemsSpelling(items) + [] == ItemsSpelling(items);
      OpenQuotes(bare, ItemsSpelling(items));
      CloseQuotes(bare + ItemsMeaning(items), []);
      RejectedToken(bare, [34] + ItemsSpelling(items));
    }
    if AreItems(items, [34] + rest) {
      ReadDouble(items, bare, rest);
      RejectedToken(bare, [34] + ItemsSpelling(items) + [34] + rest);
    }
    ReadSingle(t, bare, []);
    assert SingleSpelling(t) + [] == SingleSpelling(t);
    OpenQuotes(bare, SingleSpelling(t));
    CloseQuotes(bare + t, []);
    RejectedToken(bare, [39] + SingleSpelling(t));
    if t != [] ==> t[|t| - 1] != 92 {
      ReadApostrophes(t, bare, rest);
      RejectedToken(bare, [39] + SingleSpelling(t) + [39] + rest);
    }
  }

  lemma RejectedToken(bare: seq<byte>, s: seq<byte>)
    requires IsBare(bare) && s != [] && s[0] in {34, 39} && ScanToken(Plain, bare, s) == Unbalanced
    ensures Split(bare + s) == None
  {
    hide ScanToken;
    ReadBare(bare, [], s);
    assert [] + bare == bare;
    assert bare != [] ==> bare[0] in bare && (bare + s)[0] == bare[0];
    assert SkipBlanks(bare + s) == bare + s;
  }

  // ----- The quoted form

  /** What stands for each byte in quoted text; hexadecimal digits are lower-case. */
  lemma EscapedForms(b: byte)
    ensures Escape(34) == [92, 34] && Escape(92) == [92, 92]
    ensures Escape(7) == [92, 97] && Escape(8) == [92, 98] && Escape(9) == [92, 116]
    ensures Escape(10) == [92, 110] && Escape(13) == [92, 114]
    ensures 32 <= b <= 126 && b !in {34, 92} ==> Escape(b) == [b]
    ensures !(7 <= b <= 10 || b == 13 || 32 <= b <= 126) ==>
              var s := Escape(b);
              && |s| == 4 && s[..2] == [92, 120]
              && (forall i | 2 <= i < 4 :: 48 <= s[i] <= 57 || 97 <= s[i] <= 102)
              && DigitValue(s[2]) * 16 + DigitValue(s[3]) == b
  {
  }
}
