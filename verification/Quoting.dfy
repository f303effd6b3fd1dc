/** Quoted byte strings of sds.c: `sdscatrepr` writes them and `sdssplitargs`
    splits a line into them. Characters are classified as in the C locale. */
module Quoting {
  import opened Bytes

  const QUOTE: byte := 34
  const APOSTROPHE: byte := 39
  const BACKSLASH: byte := 92
  const SPACE: byte := 32
  const LETTER_N: byte := 110
  const LETTER_R: byte := 114
  const LETTER_T: byte := 116
  const LETTER_A: byte := 97
  const LETTER_B: byte := 98
  const LETTER_X: byte := 120
  const TAB: byte := 9
  const BELL: byte := 7
  const BACKSPACE: byte := 8

  predicate IsPrint(b: byte) {
    32 <= b <= 126
  }

  predicate IsSpace(b: byte) {
    b == SPACE || 9 <= b <= 13
  }

  function HexDigit(n: int): byte
    requires 0 <= n < 16
  {
    if n < 10 then 48 + n else 97 + (n - 10)
  }

  /** `is_hex_digit`. */
  predicate IsHexDigit(c: byte) {
    48 <= c <= 57 || 97 <= c <= 102 || 65 <= c <= 70
  }

  /** `hex_digit_to_int`. */
  function HexValue(c: byte): (n: int)
    ensures 0 <= n < 16
  {
    if 48 <= c <= 57 then c - 48
    else if 97 <= c <= 102 then c - 97 + 10
    else if 65 <= c <= 70 then c - 65 + 10
    else 0
  }

  // ----- Quoting

  function Escape(b: byte): (s: seq<byte>)
    ensures 0 !in s
  {
    if b == BACKSLASH || b == QUOTE then [BACKSLASH, b]
    else if b == LF then [BACKSLASH, LETTER_N]
    else if b == CR then [BACKSLASH, LETTER_R]
    else if b == TAB then [BACKSLASH, LETTER_T]
    else if b == BELL then [BACKSLASH, LETTER_A]
    else if b == BACKSPACE then [BACKSLASH, LETTER_B]
    else if IsPrint(b) then [b]
    else [BACKSLASH, LETTER_X, HexDigit(b / 16), HexDigit(b % 16)]
  }

  function EscapeAll(s: seq<byte>): seq<byte> {
    if s == [] then [] else Escape(s[0]) + EscapeAll(s[1..])
  }

  function Quote(s: seq<byte>): seq<byte> {
    [QUOTE] + EscapeAll(s) + [QUOTE]
  }

  /** The part of `sdscatrepr` that appends one byte. */
  method CatEscaped(s: seq<byte>, b: byte) returns (r: seq<byte>)
    ensures r == s + Escape(b)
  {
    match b {
      case 92 => r := s + [BACKSLASH, b];
      case 34 => r := s + [BACKSLASH, b];
      case 10 => r := s + [BACKSLASH, LETTER_N];
      case 13 => r := s + [BACKSLASH, LETTER_R];
      case 9 => r := s + [BACKSLASH, LETTER_T];
      case 7 => r := s + [BACKSLASH, LETTER_A];
      case 8 => r := s + [BACKSLASH, LETTER_B];
      case _ =>
        if IsPrint(b) {
          r := s + [b];
        } else {
          r := s + [BACKSLASH, LETTER_X, HexDigit(b / 16), HexDigit(b % 16)];
        }
    }
  }

  /** `sdscatrepr`. */
  method SdsCatRepr(s: seq<byte>, p: seq<byte>) returns (r: seq<byte>)
    ensures r == s + Quote(p)
  {
    hide Escape;
    r := s + [QUOTE];
    var i := 0;
    assert p[0..] == p;
    while i < |p|
      invariant i <= |p|
      invariant r + EscapeAll(p[i..]) == s + [QUOTE] + EscapeAll(p)
    {
      assert p[i..][1..] == p[i + 1..];
      assert r + (Escape(p[i]) + EscapeAll(p[i + 1..])) == r + Escape(p[i]) + EscapeAll(p[i + 1..]);
      r := CatEscaped(r, p[i]);
      i := i + 1;
    }
    assert r == s + [QUOTE] + EscapeAll(p);
    r := r + [QUOTE];
    assert r == s + Quote(p);
  }

  // ----- Splitting

  datatype Mode = Plain | InQuotes | InApostrophes

  /** A token and the input after it, or the error of unbalanced quotes. */
  datatype Scan = Token(text: seq<byte>, rest: seq<byte>) | Unbalanced

  /** The byte at `i`, or the terminating NUL. */
  function At(s: seq<byte>, i: nat): byte {
    if i < |s| then s[i] else 0
  }

  function Drop(s: seq<byte>, n: nat): seq<byte> {
    if n <= |s| then s[n..] else []
  }

  /** What one round of the token loop does at the front of `s`. */
  datatype Move =
    | Take(bytes: seq<byte>, width: nat)  // append to the token
    | Enter(mode: Mode)                   // an opening quote
    | Finish                              // the token ends here
    | Reject                              // unbalanced quotes

  function Unescape(c: byte): byte {
    if c == LETTER_N then LF
    else if c == LETTER_R then CR
    else if c == LETTER_T then TAB
    else if c == LETTER_B then BACKSPACE
    else if c == LETTER_A then BELL
    else c
  }

  function NextMove(mode: Mode, s: seq<byte>): Move {
    match mode
    case InQuotes =>
      if At(s, 0) == BACKSLASH && At(s, 1) == LETTER_X && IsHexDigit(At(s, 2)) && IsHexDigit(At(s, 3)) then
        Take([HexValue(s[2]) * 16 + HexValue(s[3])], 4)
      else if At(s, 0) == BACKSLASH && At(s, 1) != 0 then Take([Unescape(s[1])], 2)
      else if At(s, 0) == QUOTE then if At(s, 1) != 0 && !IsSpace(s[1]) then Reject else Finish
      else if At(s, 0) == 0 then Reject
      else Take([s[0]], 1)
    case InApostrophes =>
      if At(s, 0) == BACKSLASH && At(s, 1) == APOSTROPHE then Take([APOSTROPHE], 2)
      else if At(s, 0) == APOSTROPHE then if At(s, 1) != 0 && !IsSpace(s[1]) then Reject else Finish
      else if At(s, 0) == 0 then Reject
      else Take([s[0]], 1)
    case Plain =>
      if At(s, 0) in {SPACE, LF, CR, TAB, 0} then Finish
      else if At(s, 0) == QUOTE then Enter(InQuotes)
      else if At(s, 0) == APOSTROPHE then Enter(InApostrophes)
      else Take([s[0]], 1)
  }

  /** The rest of a token of which `current` was read. */
  function ScanToken(mode: Mode, current: seq<byte>, s: seq<byte>): (r: Scan)
    ensures r.Token? ==> |r.rest| <= |s|
    ensures r.Token? && s != [] ==> |r.rest| < |s|
    decreases |s|
  {
    match NextMove(mode, s)
    case Take(bytes, width) => ScanToken(mode, current + bytes, Drop(s, width))
    case Enter(mode') => ScanToken(mode', current, Drop(s, 1))
    case Finish => Token(current, Drop(s, 1))
    case Reject => Unbalanced
  }

  function SkipBlanks(s: seq<byte>): (r: seq<byte>)
    ensures |r| <= |s|
  {
    if s != [] && IsSpace(s[0]) then SkipBlanks(s[1..]) else s
  }

  /** The tokens of a line, or None if its quotes are unbalanced. */
  function Split(s: seq<byte>): Option<seq<seq<byte>>>
    decreases |s|
  {
    var t := SkipBlanks(s);
    if t == [] then Some([]) else
      match ScanToken(Plain, [], t)
      case Unbalanced => None
      case Token(text, rest) =>
        match Split(rest)
        case None => None
        case Some(more) => Some([text] + more)
  }

  /** `sdssplitargs` on a C string. */
  method SdsSplitArgs(line: seq<byte>) returns (vector: Option<seq<seq<byte>>>)
    requires 0 !in line
    ensures vector == Split(line)
  {
    var p := 0;
    var argv: seq<seq<byte>> := [];
    PrependNothing(Split(line));
    assert line[0..] == line;
    while true
      invariant p <= |line|
      invariant Prepended(argv, Split(line[p..])) == Split(line)
      decreases |line| - p
    {
      hide ScanToken;
      ghost var before := line[p..];
      // blanks in front
      while p < |line| && IsSpace(line[p])
        invariant |line| - |before| <= p <= |line|
        invariant SkipBlanks(line[p..]) == SkipBlanks(before)
      {
        assert line[p..][1..] == line[p + 1..];
        p := p + 1;
      }
      assert SkipBlanks(before) == line[p..];
      if p == |line| {
        assert Split(before) == Some([]) && argv + [] == argv;
        return Some(argv);
      }
      // something other than a blank starts a token
      ghost var start := p;
      var token;
      token, p := GetToken(line, p);
      if token.None? {
        return None;
      }
      // the token is complete
      PrependStep(argv, token.value, Split(line[p..]));
      assert Split(before) == Prepended([token.value], Split(line[p..]));
      argv := argv + [token.value];
    }
  }

  /** What a round of the token loop has done to the token and the position when it gets to
      stepping over the byte at `p`. */
  ghost predicate Moved(move: Move, from: nat, current: seq<byte>, p: nat, current': seq<byte>) {
    if move.Take? then p + 1 == from + move.width && current' == current + move.bytes
    else p == from && current' == current
  }

  /** A round inside double quotes; not `ok` if the quotes are unbalanced. */
  method RoundInQuotes(line: seq<byte>, from: nat, text: seq<byte>)
    returns (ok: bool, done: bool, p: nat, current: seq<byte>)
    requires 0 !in line && from <= |line|
    ensures ok <==> !NextMove(InQuotes, line[from..]).Reject?
    ensures ok ==> (done <==> NextMove(InQuotes, line[from..]).Finish?)
    ensures ok ==> p < |line| && Moved(NextMove(InQuotes, line[from..]), from, text, p, current)
  {
    var s := line[from..];
    ok, done, p, current := true, false, from, text;
    if At(s, 0) == BACKSLASH && At(s, 1) == LETTER_X && IsHexDigit(At(s, 2)) && IsHexDigit(At(s, 3)) {
      current := current + [HexValue(s[2]) * 16 + HexValue(s[3])];
      p := p + 3;
    } else if At(s, 0) == BACKSLASH && At(s, 1) != 0 {
      p := p + 1;
      current := current + [Unescape(line[p])];
    } else if At(s, 0) == QUOTE {
      // the quote has to end the token
      if At(s, 1) != 0 && !IsSpace(s[1]) {
        ok := false;
      }
      done := true;
    } else if At(s, 0) == 0 {
      // the line ends inside the quotes
      ok := false;
    } else {
      current := current + [s[0]];
    }
  }

  /** A round inside single quotes. */
  method RoundInApostrophes(line: seq<byte>, from: nat, text: seq<byte>)
    returns (ok: bool, done: bool, p: nat, current: seq<byte>)
    requires 0 !in line && from <= |line|
    ensures ok <==> !NextMove(InApostrophes, line[from..]).Reject?
    ensures ok ==> (done <==> NextMove(InApostrophes, line[from..]).Finish?)
    ensures ok ==> p < |line| && Moved(NextMove(InApostrophes, line[from..]), from, text, p, current)
  {
    var s := line[from..];
    ok, done, p, current := true, false, from, text;
    if At(s, 0) == BACKSLASH && At(s, 1) == APOSTROPHE {
      p := p + 1;
      current := current + [APOSTROPHE];
    } else if At(s, 0) == APOSTROPHE {
      if At(s, 1) != 0 && !IsSpace(s[1]) {
        ok := false;
      }
      done := true;
    } else if At(s, 0) == 0 {
      ok := false;
    } else {
      current := current + [s[0]];
    }
  }

  /** A round outside of quotes. */
  method RoundOutside(line: seq<byte>, from: nat, text: seq<byte>)
    returns (mode: Mode, done: bool, current: seq<byte>)
    requires 0 !in line && from <= |line|
    ensures done <==> NextMove(Plain, line[from..]).Finish?
    ensures mode == if NextMove(Plain, line[from..]).Enter? then NextMove(Plain, line[from..]).mode else Plain
    ensures (done || from < |line|) && Moved(NextMove(Plain, line[from..]), from, text, from, current)
  {
    var s := line[from..];
    mode, done, current := Plain, false, text;
    match At(s, 0) {
      case 32 => done := true;
      case 10 => done := true;
      case 13 => done := true;
      case 9 => done := true;
      case 0 => done := true;
      case 34 => mode := InQuotes;
      case 39 => mode := InApostrophes;
      case _ => current := current + [s[0]];
    }
  }

  /** The token loop of `sdssplitargs`, from `start` on. */
  method GetToken(line: seq<byte>, start: nat) returns (token: Option<seq<byte>>, p: nat)
    requires 0 !in line && start < |line|
    ensures token.Some? ==> start < p <= |line| && ScanToken(Plain, [], line[start..]) == Token(token.value, line[p..])
    ensures token.None? ==> ScanToken(Plain, [], line[start..]) == Unbalanced
  {
    hide ScanToken;
    hide NextMove;
    p := start;
    var inq, insq, done := false, false, false;
    var current: seq<byte> := [];
    ghost var result := ScanToken(Plain, [], line[start..]);
    while !done
      invariant start <= p <= |line| && !(inq && insq)
      invariant done ==> start < p && result == Token(current, line[p..])
      invariant !done ==> result == ScanToken(ModeOf(inq, insq), current, line[p..])
      decreases !done, |line| - p
    {
      ghost var from, mode := p, ModeOf(inq, insq);
      ScanStep(mode, current, line[p..]);
      MoveWidth(mode, line[p..]);
      var ok := true;
      if inq {
        ok, done, p, current := RoundInQuotes(line, p, current);
      } else if insq {
        ok, done, p, current := RoundInApostrophes(line, p, current);
      } else {
        var next;
        next, done, current := RoundOutside(line, p, current);
        inq, insq := next.InQuotes?, next.InApostrophes?;
      }
      if !ok {
        return None, p;
      }
      ghost var width := if NextMove(mode, line[from..]).Take? then NextMove(mode, line[from..]).width else 1;
      DropFrom(line, from, width);
      if At(line, p) != 0 {
        p := p + 1;
      }
      assert p <= |line| && line[p..] == Drop(line[from..], width);
    }
    return Some(current), p;
  }

  lemma MoveWidth(mode: Mode, s: seq<byte>)
    ensures NextMove(mode, s).Take? ==> 1 <= NextMove(mode, s).width <= |s|
    ensures NextMove(mode, s).Enter? ==> mode == Plain && s != [] && NextMove(mode, s).mode != Plain
    ensures NextMove(mode, s).Reject? ==> mode != Plain
  {
  }

  lemma DropFrom(line: seq<byte>, from: nat, n: nat)
    requires from <= |line|
    ensures Drop(line[from..], n) == if from + n <= |line| then line[from + n..] else []
  {
  }

  lemma ScanStep(mode: Mode, current: seq<byte>, s: seq<byte>)
    ensures NextMove(mode, s).Take? ==>
              ScanToken(mode, current, s) ==
              ScanToken(mode, current + NextMove(mode, s).bytes, Drop(s, NextMove(mode, s).width))
    ensures NextMove(mode, s).Enter? ==>
              ScanToken(mode, current, s) == ScanToken(NextMove(mode, s).mode, current, Drop(s, 1))
    ensures NextMove(mode, s).Finish? ==> ScanToken(mode, current, s) == Token(current, Drop(s, 1))
    ensures NextMove(mode, s).Reject? ==> ScanToken(mode, current, s) == Unbalanced
  {
  }

  function ModeOf(inq: bool, insq: bool): Mode {
    if inq then InQuotes else if insq then InApostrophes else Plain
  }

  ghost function Prepended(argv: seq<seq<byte>>, more: Option<seq<seq<byte>>>): Option<seq<seq<byte>>> {
    match more case None => None case Some(vs) => Some(argv + vs)
  }

  lemma PrependNothing(more: Option<seq<seq<byte>>>)
    ensures Prepended([], more) == more
  {
    if more.Some? {
      assert [] + more.value == more.value;
    }
  }

  lemma PrependStep(argv: seq<seq<byte>>, token: seq<byte>, more: Option<seq<seq<byte>>>)
    ensures Prepended(argv, Prepended([token], more)) == Prepended(argv + [token], more)
  {
    if more.Some? {
      assert argv + ([token] + more.value) == argv + [token] + more.value;
    }
  }

  // ----- Splitting undoes quoting

  /** Quoted strings separated by single spaces. */
  function QuoteLine(args: seq<seq<byte>>): seq<byte> {
    if args == [] then []
    else if |args| == 1 then Quote(args[0])
    else Quote(args[0]) + [SPACE] + QuoteLine(args[1..])
  }

  /** One escaped byte is read back as that byte, whatever follows. */
  lemma ReadEscape(current: seq<byte>, b: byte, rest: seq<byte>)
    ensures ScanToken(InQuotes, current, Escape(b) + rest) == ScanToken(InQuotes, current + [b], rest)
  {
    hide ScanToken;
    var s := Escape(b) + rest;
    assert NextMove(InQuotes, s) == Take([b], |Escape(b)|);
    assert Drop(s, |Escape(b)|) == rest;
    ScanStep(InQuotes, current, s);
  }

  lemma {:induction false} ReadEscapes(current: seq<byte>, s: seq<byte>, rest: seq<byte>)
    requires rest == [] || IsSpace(rest[0])
    ensures ScanToken(InQuotes, current, EscapeAll(s) + [QUOTE] + rest) == Token(current + s, rest)
    decreases |s|
  {
    hide ScanToken;
    hide Escape;
    var all := EscapeAll(s) + [QUOTE] + rest;
    if s == [] {
      assert all == [QUOTE] + rest && Drop(all, 1) == rest;
      ScanStep(InQuotes, current, all);
      assert current + s == current;
    } else {
      var more := EscapeAll(s[1..]) + [QUOTE] + rest;
      assert all == Escape(s[0]) + more;
      ReadEscape(current, s[0], more);
      ReadEscapes(current + [s[0]], s[1..], rest);
      assert current + [s[0]] + s[1..] == current + s;
    }
  }

  lemma ReadQuote(s: seq<byte>, rest: seq<byte>)
    requires rest == [] || IsSpace(rest[0])
    ensures ScanToken(Plain, [], Quote(s) + rest) == Token(s, rest)
    ensures SkipBlanks(Quote(s) + rest) == Quote(s) + rest
  {
    hide ScanToken;
    var all := Quote(s) + rest;
    assert Drop(all, 1) == EscapeAll(s) + [QUOTE] + rest;
    ScanStep(Plain, [], all);
    ReadEscapes([], s, rest);
    assert [] + s == s;
  }

  /** A quoted string in front of a line is its first token. */
  lemma SplitQuote(s: seq<byte>, rest: seq<byte>)
    requires rest == [] || IsSpace(rest[0])
    ensures Split(Quote(s) + rest) == Prepended([s], Split(rest))
  {
    hide ScanToken;
    ReadQuote(s, rest);
    assert Quote(s) + rest != [];
  }

  /** Any list of byte strings, NUL and quotes included, survives being quoted,
      joined and split; the error path is never taken. */
  lemma {:induction false} SplitUndoesQuote(args: seq<seq<byte>>)
    ensures Split(QuoteLine(args)) == Some(args)
  {
    hide ScanToken;
    hide Quote;
    if |args| == 1 {
      SplitQuote(args[0], []);
      assert Quote(args[0]) + [] == Quote(args[0]);
      assert args == [args[0]] + [];
    } else if args != [] {
      var rest := [SPACE] + QuoteLine(args[1..]);
      assert QuoteLine(args) == Quote(args[0]) + rest;
      SplitQuote(args[0], rest);
      assert rest[1..] == QuoteLine(args[1..]);
      SplitUndoesQuote(args[1..]);
      assert SkipBlanks(rest) == SkipBlanks(rest[1..]);
      assert Split(rest) == Split(rest[1..]);
      assert args == [args[0]] + args[1..];
    }
  }

  /** Quoted text is a C string: no NUL, so `sdssplitargs` sees all of it. */
  lemma {:induction false} QuoteLineHasNoNul(args: seq<seq<byte>>)
    ensures 0 !in QuoteLine(args)
  {
    if args != [] {
      EscapeAllHasNoNul(args[0]);
      QuoteLineHasNoNul(args[1..]);
    }
  }

  lemma {:induction false} EscapeAllHasNoNul(s: seq<byte>)
    ensures 0 !in EscapeAll(s)
  {
    if s != [] {
      EscapeAllHasNoNul(s[1..]);
    }
  }
}
