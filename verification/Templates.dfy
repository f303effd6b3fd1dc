/** Templates as a caller spells them: words of literal text and interpolations in any
    mixture, with spaces around them. What the formatter makes of a template is shown to be
    the meanings of its words. */
module Templates {
  import opened Bytes
  import opened Command

  datatype Part =
    | Literal(b: byte)     // a byte other than a space or a percent sign
    | Percent              // %%
    | Str(arg: seq<byte>)  // %s
    | Bin(arg: seq<byte>)  // %b
    | Lone                 // a percent sign at the end of the template

  function Spelling(p: Part): (s: seq<byte>) {
    match p
    case Literal(b) => [b]
    case Percent => [37, 37]
    case Str(_) => [37, 115]
    case Bin(_) => [37, 98]
    case Lone => [37]
  }

  function Arguments(p: Part): (args: seq<seq<byte>>) {
    if p.Str? || p.Bin? then [p.arg] else []
  }

  function Meaning(p: Part): (s: seq<byte>) {
    match p
    case Literal(b) => [b]
    case Percent => [37]
    case Str(arg) => arg
    case Bin(arg) => arg
    case Lone => [37]
  }

  type Word = seq<Part>

  function WordSpelling(w: Word): (s: seq<byte>) {
    if w == [] then [] else Spelling(w[0]) + WordSpelling(w[1..])
  }

  function WordArguments(w: Word): (args: seq<seq<byte>>) {
    if w == [] then [] else Arguments(w[0]) + WordArguments(w[1..])
  }

  function WordMeaning(w: Word): (s: seq<byte>) {
    if w == [] then [] else Meaning(w[0]) + WordMeaning(w[1..])
  }

  /** A word, in front of what follows it. */
  ghost predicate IsWord(w: Word, rest: seq<byte>) {
    && w != []
    && (forall p | p in w :: p.Literal? ==> p.b != 32 && p.b != 37)
    && (forall i | 0 <= i < |w| :: w[i].Lone? ==> i == |w| - 1 && rest == [])
  }

  function Spaces(n: nat): (s: seq<byte>) {
    if n == 0 then [] else [32] + Spaces(n - 1)
  }

  /** The template: each word has a number of spaces in front of it, and some may follow
      the last. */
  function Layout(words: seq<Word>, gaps: seq<nat>): (format: seq<byte>)
    requires |gaps| == |words| + 1
  {
    if words == [] then Spaces(gaps[0])
    else Spaces(gaps[0]) + WordSpelling(words[0]) + Layout(words[1..], gaps[1..])
  }

  /** The arguments that the template takes, and those it leaves over. */
  function AllArguments(words: seq<Word>, spare: seq<seq<byte>>): (args: seq<seq<byte>>) {
    if words == [] then spare else WordArguments(words[0]) + AllArguments(words[1..], spare)
  }

  function Meanings(words: seq<Word>): (argv: seq<seq<byte>>)
    ensures |argv| == |words| && forall i | 0 <= i < |words| :: argv[i] == WordMeaning(words[i])
  {
    if words == [] then [] else [WordMeaning(words[0])] + Meanings(words[1..])
  }

  /** Words are kept apart by spaces. */
  ghost predicate WellSpaced(words: seq<Word>, gaps: seq<nat>) {
    && |gaps| == |words| + 1
    && forall i | 0 <= i < |words| ::
         && IsWord(words[i], Layout(words[i + 1..], gaps[i + 1..]))
         && (i > 0 ==> gaps[i] > 0)
  }

  // ----- From left to right through a template

  function Texts(w: Word): (ps: seq<Piece>)
    ensures |ps| == |w| && forall i | 0 <= i < |w| :: ps[i].Text?
  {
    seq(|w|, i requires 0 <= i < |w| => Text(Meaning(w[i])))
  }

  lemma {:induction false} GlueTexts(w: Word)
    ensures Glue(Texts(w)) == WordMeaning(w)
  {
    if w != [] {
      GlueTexts(w[1..]);
      assert Texts(w)[1..] == Texts(w[1..]);
    }
  }

  lemma PartPieces(p: Part, rest: seq<byte>, args: seq<seq<byte>>)
    requires Template(rest, args) && IsWord([p], rest)
    ensures Template(Spelling(p) + rest, Arguments(p) + args)
    ensures Pieces(Spelling(p) + rest, Arguments(p) + args) == [Text(Meaning(p))] + Pieces(rest, args)
  {
    var s, all := Spelling(p) + rest, Arguments(p) + args;
    assert p in [p] && [p][0] == p;
    if p.Literal? || p.Lone? {
      assert s[1..] == rest && all == args;
    } else {
      assert s[2..] == rest;
      if p.Percent? {
        assert all == args;
      } else {
        assert all[0] == p.arg && all[1..] == args;
      }
    }
  }

  lemma {:induction false} WordPieces(w: Word, rest: seq<byte>, args: seq<seq<byte>>)
    requires Template(rest, args) && IsWord(w, rest)
    ensures Template(WordSpelling(w) + rest, WordArguments(w) + args)
    ensures Pieces(WordSpelling(w) + rest, WordArguments(w) + args) == Texts(w) + Pieces(rest, args)
  {
    hide Pieces;
    hide Template;
    hide Spelling;
    hide Arguments;
    hide Meaning;
    hide Texts;
    hide IsWord;
    WordParts(w, rest);
    var more := w[1..];
    WordStep(w, rest, args);
    if more == [] {
      NoParts(rest, args);
    } else {
      WordPieces(more, rest, args);
    }
    PartPieces(w[0], WordSpelling(more) + rest, WordArguments(more) + args);
    TextsJoin(w, Pieces(rest, args));
  }

  lemma WordParts(w: Word, rest: seq<byte>)
    requires IsWord(w, rest)
    ensures w != [] && IsWord([w[0]], WordSpelling(w[1..]) + rest) && (w[1..] != [] ==> IsWord(w[1..], rest))
  {
    assert w[0] in w && forall p | p in w[1..] :: p in w;
    assert forall i | 0 <= i < |w| - 1 :: w[1..][i] == w[i + 1];
  }

  lemma WordStep(w: Word, rest: seq<byte>, args: seq<seq<byte>>)
    requires w != []
    ensures WordSpelling(w) + rest == Spelling(w[0]) + (WordSpelling(w[1..]) + rest)
    ensures WordArguments(w) + args == Arguments(w[0]) + (WordArguments(w[1..]) + args)
  {
    hide Spelling;
    hide Arguments;
    Joined(Spelling(w[0]), WordSpelling(w[1..]), rest);
    Joined(Arguments(w[0]), WordArguments(w[1..]), args);
  }

  lemma Joined<T>(a: seq<T>, b: seq<T>, c: seq<T>)
    ensures a + b + c == a + (b + c)
  {
  }

  lemma NoParts(rest: seq<byte>, args: seq<seq<byte>>)
    requires Template(rest, args)
    ensures WordSpelling([]) + rest == rest && WordArguments([]) + args == args
    ensures Texts([]) + Pieces(rest, args) == Pieces(rest, args)
  {
  }

  lemma TextsJoin(w: Word, ps: seq<Piece>)
    requires w != []
    ensures [Text(Meaning(w[0]))] + (Texts(w[1..]) + ps) == Texts(w) + ps
  {
    hide Meaning;
    assert [Text(Meaning(w[0]))] + Texts(w[1..]) == Texts(w);
  }

  lemma {:induction false} SpacePieces(n: nat, rest: seq<byte>, args: seq<seq<byte>>)
    requires Template(rest, args)
    ensures Template(Spaces(n) + rest, args)
    ensures Words(Pieces(Spaces(n) + rest, args)) == Words(Pieces(rest, args))
    ensures n > 0 ==> Pieces(Spaces(n) + rest, args) != [] && Pieces(Spaces(n) + rest, args)[0] == Gap
  {
    hide Pieces;
    hide Template;
    hide Words;
    if n == 0 {
      assert Spaces(n) + rest == rest;
    } else {
      SpacePieces(n - 1, rest, args);
      OneSpace(Spaces(n - 1) + rest, args);
      assert Spaces(n) + rest == [32] + (Spaces(n - 1) + rest);
    }
  }

  lemma OneSpace(rest: seq<byte>, args: seq<seq<byte>>)
    requires Template(rest, args)
    ensures Template([32] + rest, args) && Pieces([32] + rest, args) == [Gap] + Pieces(rest, args)
    ensures Words([Gap] + Pieces(rest, args)) == Words(Pieces(rest, args))
  {
    assert ([32] + rest)[1..] == rest;
    assert ([Gap] + Pieces(rest, args))[1..] == Pieces(rest, args);
  }

  lemma {:induction false} RunOfTexts(w: Word, ps: seq<Piece>)
    requires ps == [] || ps[0] == Gap
    ensures RunLength(Texts(w) + ps) == |w|
  {
    var all := Texts(w) + ps;
    if w == [] {
      assert all == ps;
    } else {
      RunOfTexts(w[1..], ps);
      assert all[1..] == Texts(w[1..]) + ps;
    }
  }

  lemma FirstWord(w: Word, ps: seq<Piece>)
    requires w != [] && (ps == [] || ps[0] == Gap)
    ensures Words(Texts(w) + ps) == [WordMeaning(w)] + Words(ps)
  {
    var all := Texts(w) + ps;
    RunOfTexts(w, ps);
    GlueTexts(w);
    assert all[..|w|] == Texts(w) && all[|w|..] == ps;
  }

  /** One word more in front of a template. */
  lemma OneWord(words: seq<Word>, gaps: seq<nat>, spare: seq<seq<byte>>)
    requires |gaps| == |words| + 1 && words != [] && IsWord(words[0], Layout(words[1..], gaps[1..]))
    requires var rest, args := Layout(words[1..], gaps[1..]), AllArguments(words[1..], spare);
             && Template(rest, args) && Words(Pieces(rest, args)) == Meanings(words[1..])
             && (Pieces(rest, args) == [] || Pieces(rest, args)[0] == Gap)
    ensures Template(Layout(words, gaps), AllArguments(words, spare))
    ensures Words(Pieces(Layout(words, gaps), AllArguments(words, spare))) == Meanings(words)
    ensures gaps[0] > 0 ==>
              Pieces(Layout(words, gaps), AllArguments(words, spare)) == [] ||
              Pieces(Layout(words, gaps), AllArguments(words, spare))[0] == Gap
  {
    hide Pieces;
    hide Template;
    hide Words;
    hide WordSpelling;
    hide WordArguments;
    hide Spaces;
    var rest, args := Layout(words[1..], gaps[1..]), AllArguments(words[1..], spare);
    WordPieces(words[0], rest, args);
    FirstWord(words[0], Pieces(rest, args));
    SpacePieces(gaps[0], WordSpelling(words[0]) + rest, WordArguments(words[0]) + args);
    assert Layout(words, gaps) == Spaces(gaps[0]) + (WordSpelling(words[0]) + rest);
  }

  lemma NoWords(gaps: seq<nat>, spare: seq<seq<byte>>)
    requires |gaps| == 1
    ensures var s := Layout([], gaps);
            && AllArguments([], spare) == spare && Template(s, spare) && Words(Pieces(s, spare)) == Meanings([])
            && (Pieces(s, spare) == [] || Pieces(s, spare)[0] == Gap)
  {
    SpacePieces(gaps[0], [], spare);
    assert Spaces(gaps[0]) + [] == Spaces(gaps[0]);
  }

  lemma LaterWords(words: seq<Word>, gaps: seq<nat>)
    requires WellSpaced(words, gaps) && words != []
    ensures WellSpaced(words[1..], gaps[1..]) && (words[1..] != [] ==> gaps[1..][0] > 0)
    ensures IsWord(words[0], Layout(words[1..], gaps[1..]))
  {
    var ws, gs := words[1..], gaps[1..];
    forall i | 0 <= i < |ws|
      ensures IsWord(ws[i], Layout(ws[i + 1..], gs[i + 1..])) && gs[i] > 0
    {
      assert ws[i + 1..] == words[i + 2..] && gs[i + 1..] == gaps[i + 2..];
      assert IsWord(words[i + 1], Layout(words[i + 1 + 1..], gaps[i + 1 + 1..]));
    }
  }

  /** A template yields one argument for each of its words, and that is what the word
      means: literal text as it stands, one percent sign for two, and interpolated bytes
      unchanged, spaces and empty ones included. */
  lemma {:induction false} TemplateMeans(words: seq<Word>, gaps: seq<nat>, spare: seq<seq<byte>>)
    requires WellSpaced(words, gaps)
    ensures Template(Layout(words, gaps), AllArguments(words, spare))
    ensures Words(Pieces(Layout(words, gaps), AllArguments(words, spare))) == Meanings(words)
    ensures words == [] || gaps[0] > 0 ==>
              Pieces(Layout(words, gaps), AllArguments(words, spare)) == [] ||
              Pieces(Layout(words, gaps), AllArguments(words, spare))[0] == Gap
  {
    hide Layout;
    hide AllArguments;
    hide Template;
    hide Pieces;
    hide Words;
    hide IsWord;
    if words == [] {
      NoWords(gaps, spare);
    } else {
      LaterWords(words, gaps);
      TemplateMeans(words[1..], gaps[1..], spare);
      OneWord(words, gaps, spare);
    }
  }

  lemma OneMoreSpace(words: seq<Word>, gaps: seq<nat>)
    requires WellSpaced(words, gaps)
    ensures var gaps' := gaps[0 := gaps[0] + 1];
            WellSpaced(words, gaps') && Layout(words, gaps') == [32] + Layout(words, gaps)
  {
    var gaps' := gaps[0 := gaps[0] + 1];
    assert gaps'[1..] == gaps[1..];
    forall i | 0 <= i < |words|
      ensures IsWord(words[i], Layout(words[i + 1..], gaps'[i + 1..]))
    {
      assert gaps'[i + 1..] == gaps[i + 1..];
    }
  }

  /** The part that a template starts with. */
  ghost function FirstPart(format: seq<byte>, args: seq<seq<byte>>): (p: Part)
    requires Template(format, args) && format != [] && format[0] != 32
  {
    if format[0] != 37 then Literal(format[0])
    else if |format| == 1 then Lone
    else if format[1] == 37 then Percent
    else if format[1] == 115 then Str(args[0])
    else Bin(args[0])
  }

  lemma FirstPartParts(format: seq<byte>, args: seq<seq<byte>>)
    requires Template(format, args) && format != [] && format[0] != 32
    ensures var p := FirstPart(format, args);
            && |Spelling(p)| <= |format| && |Arguments(p)| <= |args|
            && Template(format[|Spelling(p)|..], args[|Arguments(p)|..])
            && format == Spelling(p) + format[|Spelling(p)|..] && args == Arguments(p) + args[|Arguments(p)|..]
            && IsWord([p], format[|Spelling(p)|..])
  {
    assert args[0..] == args;
  }

  lemma LongerWord(p: Part, words: seq<Word>, gaps: seq<nat>, spare: seq<seq<byte>>)
    requires WellSpaced(words, gaps) && IsWord([p], Layout(words, gaps)) && words != [] && gaps[0] == 0
    ensures var words' := [[p] + words[0]] + words[1..];
            && WellSpaced(words', gaps) && Layout(words', gaps) == Spelling(p) + Layout(words, gaps)
            && AllArguments(words', spare) == Arguments(p) + AllArguments(words, spare)
  {
    hide Spelling;
    hide Arguments;
    var w := [p] + words[0];
    var words' := [w] + words[1..];
    assert w[1..] == words[0] && words'[1..] == words[1..];
    var rest, args := Layout(words[1..], gaps[1..]), AllArguments(words[1..], spare);
    Joined(Spelling(p), WordSpelling(words[0]), rest);
    Joined(Arguments(p), WordArguments(words[0]), args);
    assert Spaces(0) == [] && [] + WordSpelling(w) == WordSpelling(w);
    assert [] + WordSpelling(words[0]) == WordSpelling(words[0]);
    assert IsWord(words[0], rest);
    LongerIsWord(p, words[0], rest);
    forall i | 0 <= i < |words'|
      ensures IsWord(words'[i], Layout(words'[i + 1..], gaps[i + 1..])) && (i > 0 ==> gaps[i] > 0)
    {
      assert words'[i + 1..] == words[i + 1..];
    }
  }

  lemma LongerIsWord(p: Part, w: Word, rest: seq<byte>)
    requires IsWord(w, rest) && IsWord([p], WordSpelling(w) + rest)
    ensures IsWord([p] + w, rest)
  {
    assert p in [p] && [p][0] == p;
    assert |Spelling(w[0])| > 0;
  }

  lemma AloneInWord(p: Part)
    ensures WordSpelling([p]) == Spelling(p) && WordArguments([p]) == Arguments(p)
  {
    hide Spelling;
    hide Arguments;
    var none: Word := [p][1..];
    assert none == [];
    assert WordSpelling(none) == [] && WordArguments(none) == [];
    assert Spelling(p) + [] == Spelling(p) && Arguments(p) + [] == Arguments(p);
  }

  lemma NewWord(p: Part, words: seq<Word>, gaps: seq<nat>, spare: seq<seq<byte>>)
    requires WellSpaced(words, gaps) && IsWord([p], Layout(words, gaps)) && (words == [] || gaps[0] > 0)
    ensures var words', gaps' := [[p]] + words, [0] + gaps;
            && WellSpaced(words', gaps') && Layout(words', gaps') == Spelling(p) + Layout(words, gaps)
            && AllArguments(words', spare) == Arguments(p) + AllArguments(words, spare)
  {
    hide Spelling;
    hide Arguments;
    hide IsWord;
    var words', gaps' := [[p]] + words, [0] + gaps;
    assert words'[1..] == words && gaps'[1..] == gaps;
    AloneInWord(p);
    assert Spaces(0) == [] && [] + Spelling(p) == Spelling(p);
    forall i | 0 <= i < |words'|
      ensures IsWord(words'[i], Layout(words'[i + 1..], gaps'[i + 1..])) && (i > 0 ==> gaps'[i] > 0)
    {
      if i > 0 {
        assert words'[i + 1..] == words[i..] && gaps'[i + 1..] == gaps[i..];
        assert IsWord(words[i - 1], Layout(words[i - 1 + 1..], gaps[i - 1 + 1..]));
      }
    }
  }

  lemma PutInFront(p: Part, words: seq<Word>, gaps: seq<nat>, spare: seq<seq<byte>>)
    returns (words': seq<Word>, gaps': seq<nat>)
    requires WellSpaced(words, gaps) && IsWord([p], Layout(words, gaps))
    ensures WellSpaced(words', gaps') && Layout(words', gaps') == Spelling(p) + Layout(words, gaps)
    ensures AllArguments(words', spare) == Arguments(p) + AllArguments(words, spare)
  {
    if words != [] && gaps[0] == 0 {
      words', gaps' := [[p] + words[0]] + words[1..], gaps;
      LongerWord(p, words, gaps, spare);
    } else {
      words', gaps' := [[p]] + words, [0] + gaps;
      NewWord(p, words, gaps, spare);
    }
  }

  /** Every template has that form. */
  lemma {:induction false} EveryTemplate(format: seq<byte>, args: seq<seq<byte>>)
    returns (words: seq<Word>, gaps: seq<nat>, spare: seq<seq<byte>>)
    requires Template(format, args)
    ensures WellSpaced(words, gaps) && Layout(words, gaps) == format && AllArguments(words, spare) == args
    decreases |format|
  {
    if format == [] {
      words, gaps, spare := [], [0], args;
    } else if format[0] == 32 {
      words, gaps, spare := EveryTemplate(format[1..], args);
      OneMoreSpace(words, gaps);
      assert format == [32] + format[1..];
      gaps := gaps[0 := gaps[0] + 1];
    } else {
      var p := FirstPart(format, args);
      var rest, args' := format[|Spelling(p)|..], args[|Arguments(p)|..];
      FirstPartParts(format, args);
      words, gaps, spare := EveryTemplate(rest, args');
      words, gaps := PutInFront(p, words, gaps, spare);
    }
  }
}
