/** What configuration strings mean, in terms of the words, quoted strings, spaces and comments they
    are made of: what cp_uncomment keeps, where cp_argvec splits and what cp_unquote gives. */
module ConfText {
  import opened Common
  import opened ConfComments
  import opened Escapes
  import opened Quoting

  // ---------------------------------------------------------------- tokens

  datatype Token =
    | Plain(c: char)
    | Single(x: string)
    | Double(units: seq<Unit>)
    | Angle(items: seq<HexItem>)
    | UnendedSingle(x: string)
    | UnendedDouble(units: seq<Unit>)

  function TokenText(tok: Token): (s: string)
  {
    match tok
    case Plain(c) => [c]
    case Single(x) => "'" + x + "'"
    case Double(units) => "\"" + UnitsText(units) + "\""
    case Angle(items) => "\\<" + HexText(items) + ">"
    case UnendedSingle(x) => "'" + x
    case UnendedDouble(units) => "\"" + UnitsText(units)
  }

  /** A token in front of rest. A plain character is none that starts something else. */
  predicate TokenOk(tok: Token, rest: string)
  {
    match tok
    case Plain(c) =>
      && !IsSpace(c) && c != ',' && c != '\'' && c != '\"' && !IsComment([c] + rest)
      && !(c == '\\' && rest != [] && rest[0] == '<')
    case Single(x) => '\'' !in x
    case Double(units) => UnitsOk(units, "\"" + rest)
    case Angle(items) => HexOk(items, ">" + rest)
    case UnendedSingle(x) => '\'' !in x && rest == []
    case UnendedDouble(units) => UnitsOk(units, []) && rest == []
  }

  lemma {:induction false} SingleSkips(x: string, rest: string)
    requires '\'' !in x
    ensures SingleLength(x + "'" + rest) == |x| + 1
  {
    var t := x + "'" + rest;
    if x == [] {
      assert t[0] == '\'';
    } else {
      assert t[1..] == x[1..] + "'" + rest;
      SingleSkips(x[1..], rest);
    }
  }

  lemma {:induction false} UnendedSingleSkips(x: string)
    requires '\'' !in x
    ensures SingleLength(x) == |x|
  {
    if x != [] {
      UnendedSingleSkips(x[1..]);
    }
  }

  /** A token is taken as a whole, and not for something else. */
  predicate IsSkipped(tok: string, rest: string)
  {
    && tok != [] && !IsSpace(tok[0]) && !IsComment(tok + rest) && tok[0] != ','
    && TokenLength(tok + rest) == |tok|
  }

  lemma PlainIsSkipped(c: char, rest: string)
    requires TokenOk(Plain(c), rest)
    ensures IsSkipped([c], rest)
  {
    hide BackslashLength;
  }

  lemma SingleIsSkipped(x: string, rest: string)
    requires '\'' !in x
    ensures IsSkipped("'" + x + "'", rest)
  {
    hide SingleLength;
    var t := "'" + x + "'" + rest;
    assert t[1..] == x + "'" + rest;
    SingleSkips(x, rest);
  }

  lemma UnendedSingleIsSkipped(x: string)
    requires '\'' !in x
    ensures IsSkipped("'" + x, [])
  {
    hide SingleLength;
    assert ("'" + x + [])[1..] == x;
    UnendedSingleSkips(x);
  }

  lemma DoubleIsSkipped(units: seq<Unit>, rest: string)
    requires UnitsOk(units, "\"" + rest)
    ensures IsSkipped("\"" + UnitsText(units) + "\"", rest)
  {
    hide DoubleLength, UnitsText, UnitsOk;
    var t := "\"" + UnitsText(units) + "\"" + rest;
    assert t[1..] == UnitsText(units) + ("\"" + rest);
    UnitsSkip(units, rest);
  }

  lemma UnendedDoubleIsSkipped(units: seq<Unit>)
    requires UnitsOk(units, [])
    ensures IsSkipped("\"" + UnitsText(units), [])
  {
    hide DoubleLength, UnitsText, UnitsOk;
    assert ("\"" + UnitsText(units) + [])[1..] == UnitsText(units);
    UnendedUnitsSkip(units);
  }

  lemma AngleIsSkipped(items: seq<HexItem>, rest: string)
    requires HexOk(items, ">" + rest)
    ensures IsSkipped("\\<" + HexText(items) + ">", rest)
  {
    hide HexLength, HexText, HexOk;
    var t := "\\<" + HexText(items) + ">" + rest;
    assert t[2..] == HexText(items) + (">" + rest);
    HexSkips(items, rest);
  }

  /** Each token is skipped as a whole. */
  lemma TokenSkips(tok: Token, rest: string)
    requires TokenOk(tok, rest)
    ensures IsSkipped(TokenText(tok), rest)
  {
    hide IsSkipped, HexText, HexOk, UnitsText, UnitsOk, IsSpace, IsComment;
    match tok
    case Plain(c) => PlainIsSkipped(c, rest);
    case Single(x) => SingleIsSkipped(x, rest);
    case Double(units) => DoubleIsSkipped(units, rest);
    case Angle(items) => AngleIsSkipped(items, rest);
    case UnendedSingle(x) => UnendedSingleIsSkipped(x);
    case UnendedDouble(units) => UnendedDoubleIsSkipped(units);
  }

  // ---------------------------------------------------------------- texts

  /** Tokens with what follows each of them. */
  datatype Chunk = Chunk(tok: Token, gap: seq<GapItem>)

  function ChunksText(chunks: seq<Chunk>): (s: string)
  {
    if chunks == [] then [] else TokenText(chunks[0].tok) + GapText(chunks[0].gap) + ChunksText(chunks[1..])
  }

  predicate ChunksOk(chunks: seq<Chunk>, rest: string)
  {
    chunks != [] ==>
      && TokenOk(chunks[0].tok, GapText(chunks[0].gap) + (ChunksText(chunks[1..]) + rest))
      && GapOk(chunks[0].gap, ChunksText(chunks[1..]) + rest)
      && ChunksOk(chunks[1..], rest)
  }

  /** What cp_uncomment is to make of it: the tokens as they are, with what is between them. */
  function Plainly(chunks: seq<Chunk>): (s: string)
  {
    if chunks == [] then []
    else if |chunks| == 1 then TokenText(chunks[0].tok)
    else TokenText(chunks[0].tok) + Between(chunks[0].gap) + Plainly(chunks[1..])
  }

  lemma ChunksCons(chunks: seq<Chunk>, rest: string)
    requires chunks != []
    ensures ChunksText(chunks) + rest
            == TokenText(chunks[0].tok) + (GapText(chunks[0].gap) + (ChunksText(chunks[1..]) + rest))
  {
    hide TokenText, GapText;
  }

  lemma TokenUncomments(
    tok: Token, rest: string, acc: string, cur: string, gap: string, closed: bool, comma: bool)
    requires TokenOk(tok, rest)
    ensures Uncomment(TokenText(tok) + rest, acc, cur, gap, closed, comma)
            == if closed then Uncomment(rest, acc + cur + " ", TokenText(tok), [], false, comma)
               else Uncomment(rest, acc, cur + gap + TokenText(tok), [], false, comma)
  {
    hide TokenText, TokenOk, TokenLength, IsSpace, IsComment, CommentLength;
    var t, n := TokenText(tok) + rest, |TokenText(tok)|;
    TokenSkips(tok, rest);
    assert t[..n] == TokenText(tok) && t[n..] == rest;
    assert [] + TokenText(tok) == TokenText(tok);
  }

  /** A text ends, or goes on with a comma that ends the argument. */
  predicate Stops(rest: string, comma: bool)
  {
    rest == [] || (comma && rest[0] == ',')
  }

  lemma UncommentStops(rest: string, acc: string, cur: string, gap: string, closed: bool, comma: bool)
    requires Stops(rest, comma)
    ensures Uncomment(rest, acc, cur, gap, closed, comma) == (acc + cur, rest)
  {
  }

  lemma {:induction false} ChunksUncomment(
    chunks: seq<Chunk>, rest: string, acc: string, cur: string, gap: string, closed: bool, comma: bool)
    requires ChunksOk(chunks, rest) && Stops(rest, comma)
    ensures Uncomment(ChunksText(chunks) + rest, acc, cur, gap, closed, comma)
            == (acc + cur + (if chunks == [] then [] else (if closed then " " else gap) + Plainly(chunks)), rest)
    decreases |chunks|
  {
    hide Uncomment, TokenText, GapText, TokenOk, GapOk, HasNote, Blanks;
    if chunks == [] {
      assert ChunksText(chunks) + rest == rest && acc + cur + [] == acc + cur;
      UncommentStops(rest, acc, cur, gap, closed, comma);
    } else {
      var tok, after, more := TokenText(chunks[0].tok), chunks[0].gap, ChunksText(chunks[1..]) + rest;
      var acc', cur' := if closed then acc + cur + " " else acc, if closed then tok else cur + gap + tok;
      ChunksCons(chunks, rest);
      TokenUncomments(chunks[0].tok, GapText(after) + more, acc, cur, gap, closed, comma);
      GapUncomments(after, more, acc', cur', [], false, comma);
      ChunksUncomment(chunks[1..], rest, acc', cur', [] + Blanks(after), HasNote(after), comma);
      BlanksAre(after);
      BetweenTokens(acc, cur, gap, closed, tok, if |chunks| == 1 then [] else Between(after) + Plainly(chunks[1..]));
      assert [] + Blanks(after) == Blanks(after);
      assert |chunks| > 1 ==> Plainly(chunks) == tok + (Between(after) + Plainly(chunks[1..]));
      assert tok + [] == tok;
    }
  }

  lemma BetweenTokens(acc: string, cur: string, gap: string, closed: bool, tok: string, more: string)
    ensures var acc', cur' := if closed then acc + cur + " " else acc, if closed then tok else cur + gap + tok;
            acc' + cur' + more == acc + cur + ((if closed then " " else gap) + (tok + more))
  {
  }

  /** partial_uncomment: initial and final space and comments go, the tokens stay, and so does space
      between them unless there is a comment with it. */
  lemma TextUncomments(lead: seq<GapItem>, chunks: seq<Chunk>, rest: string, comma: bool)
    requires GapOk(lead, ChunksText(chunks) + rest) && ChunksOk(chunks, rest) && Stops(rest, comma)
    ensures PartialUncomment(GapText(lead) + (ChunksText(chunks) + rest), comma) == (Plainly(chunks), rest)
  {
    hide Uncomment, ChunksText, GapText, Plainly;
    var t := ChunksText(chunks) + rest;
    SpaceSkips(lead, t);
    NothingSkips(chunks, rest, comma);
    ChunksUncomment(chunks, rest, [], [], [], false, comma);
    NoChunks();
    assert "" + "" == "" && "" + Plainly(chunks) == Plainly(chunks);
  }

  lemma NoChunks()
    ensures Plainly([]) == []
  {
  }

  lemma NothingSkips(chunks: seq<Chunk>, rest: string, comma: bool)
    requires ChunksOk(chunks, rest) && Stops(rest, comma)
    ensures SkipSpace(ChunksText(chunks) + rest) == ChunksText(chunks) + rest
  {
    hide TokenText, GapText, TokenOk, GapOk, CommentLength, TokenLength;
    if chunks == [] {
      assert ChunksText(chunks) + rest == rest;
    } else {
      ChunksCons(chunks, rest);
      TokenSkips(chunks[0].tok, GapText(chunks[0].gap) + (ChunksText(chunks[1..]) + rest));
    }
  }

  // ---------------------------------------------------------------- arguments

  datatype Arg = Arg(lead: seq<GapItem>, chunks: seq<Chunk>)

  function ArgText(a: Arg): (s: string)
  {
    GapText(a.lead) + ChunksText(a.chunks)
  }

  predicate ArgOk(a: Arg, rest: string)
  {
    GapOk(a.lead, ChunksText(a.chunks) + rest) && ChunksOk(a.chunks, rest)
  }

  function ArgsText(args: seq<Arg>): (s: string)
  {
    if args == [] then [] else if |args| == 1 then ArgText(args[0]) else ArgText(args[0]) + "," + ArgsText(args[1..])
  }

  /** What follows an argument. */
  function Behind(args: seq<Arg>): (s: string)
    requires args != []
  {
    if |args| == 1 then [] else "," + ArgsText(args[1..])
  }

  predicate ArgsOk(args: seq<Arg>)
  {
    args != [] ==> ArgOk(args[0], Behind(args)) && ArgsOk(args[1..])
  }

  /** One argument for each, but for an empty one at the end. */
  function Arguments(args: seq<Arg>): (v: seq<string>)
  {
    if args == [] then []
    else if |args| == 1 then if args[0].chunks == [] then [] else [Plainly(args[0].chunks)]
    else [Plainly(args[0].chunks)] + Arguments(args[1..])
  }

  lemma PlainlyIsEmpty(chunks: seq<Chunk>)
    ensures Plainly(chunks) == [] <==> chunks == []
  {
    if chunks != [] {
      TokenIsThere(chunks[0].tok);
    }
  }

  lemma TokenIsThere(tok: Token)
    ensures TokenText(tok) != []
  {
  }

  lemma OneArgument(a: Arg, rest: string)
    requires ArgOk(a, rest) && Stops(rest, true)
    ensures Argvec(ArgText(a) + rest)
            == (if a.chunks != [] || rest != [] then [Plainly(a.chunks)] else [])
               + if rest == [] then [] else Argvec(rest[1..])
  {
    hide PartialUncomment, GapText, ChunksText, Plainly, GapOk, ChunksOk;
    Together(GapText(a.lead), ChunksText(a.chunks), rest);
    TextUncomments(a.lead, a.chunks, rest, true);
    PlainlyIsEmpty(a.chunks);
    NothingUncomments();
    ArgvecUnfolds(ArgText(a) + rest);
  }

  lemma ArgvecUnfolds(t: string)
    ensures var r := PartialUncomment(t, true);
            Argvec(t) == (if r.0 != [] || r.1 != [] then [r.0] else []) + if r.1 == [] then [] else Argvec(r.1[1..])
  {
    if t == [] {
      NothingUncomments();
    } else {
      hide PartialUncomment;
      var (arg, rest) := PartialUncomment(t, true);
      assert PartialUncomment(t, true) == (arg, rest);
    }
  }

  lemma NothingUncomments()
    ensures PartialUncomment([], true) == ([], [])
  {
    assert "" + "" == "";
    assert Uncomment([], [], [], [], false, true) == ("" + "", []);
  }

  /** cp_argvec splits at the commas between arguments, each of which is passed through cp_uncomment;
      commas in quotes do not count, and an empty last argument is ignored. */
  lemma {:induction false} ArgumentsSplit(args: seq<Arg>)
    requires ArgsOk(args)
    ensures Argvec(ArgsText(args)) == Arguments(args)
    decreases |args|
  {
    hide Argvec, ArgOk, ArgText, Plainly;
    if args == [] {
      NoArguments();
    } else {
      var rest := Behind(args);
      OneArgument(args[0], rest);
      if |args| == 1 {
        assert ArgText(args[0]) + [] == ArgText(args[0]);
      } else {
        Together(ArgText(args[0]), ",", ArgsText(args[1..]));
        assert rest[1..] == ArgsText(args[1..]);
        ArgumentsSplit(args[1..]);
      }
    }
  }

  lemma NoArguments()
    ensures Argvec([]) == []
  {
  }

  // ---------------------------------------------------------------- unquoting

  function TokenMeaning(tok: Token): (s: string)
  {
    match tok
    case Plain(c) => [c]
    case Single(x) => x
    case Double(units) => UnitsMeaning(units)
    case Angle(items) => Pairs(Digits(items))
    case UnendedSingle(x) => x
    case UnendedDouble(units) => UnitsMeaning(units)
  }

  lemma {:induction false} SingleUnquotes(x: string, more: string)
    requires '\'' !in x
    ensures Unquoted(x + "'" + more, QuoteState.Single) == x + Unquoted(more, Bare)
  {
    hide Escape;
    var t := x + "'" + more;
    if x == [] {
      assert t[1..] == more;
    } else {
      assert t[1..] == x[1..] + "'" + more;
      SingleUnquotes(x[1..], more);
      assert [x[0]] + (x[1..] + Unquoted(more, Bare)) == x + Unquoted(more, Bare);
    }
  }

  lemma QuoteOpens(more: string)
    ensures Unquoted("'" + more, Bare) == Unquoted(more, QuoteState.Single)
    ensures Unquoted("\"" + more, Bare) == Unquoted(more, QuoteState.Double)
  {
    hide Escape;
    assert ("'" + more)[1..] == more && ("\"" + more)[1..] == more;
  }

  lemma PlainUnquotes(c: char, more: string)
    requires c != '\'' && c != '\"' && (c == '\\' ==> more == [] || more[0] != '<')
    ensures Unquoted([c] + more, Bare) == [c] + Unquoted(more, Bare)
  {
    hide Escape;
    assert ([c] + more)[1..] == more;
  }

  lemma AngleUnquotes(items: seq<HexItem>, more: string)
    requires HexOk(items, ">" + more)
    ensures Unquoted("\\<" + HexText(items) + ">" + more, Bare) == Pairs(Digits(items)) + Unquoted(more, Bare)
  {
    hide HexText, Pairs, Digits, HexOk, Escape;
    BinaryEscapes(items, more);
  }

  /** Whether units are complete does not depend on what comes after the closing quote. */
  lemma {:induction false} UnitsOkAny(units: seq<Unit>, rest: string, rest': string)
    requires UnitsOk(units, "\"" + rest)
    ensures UnitsOk(units, "\"" + rest')
  {
    hide UnitOk, UnitText;
    if units != [] {
      UnitsOkAny(units[1..], rest, rest');
      var a, b := UnitsText(units[1..]) + ("\"" + rest), UnitsText(units[1..]) + ("\"" + rest');
      assert a[0] == b[0];
      UnitOkAny(units[0], a, b);
    }
  }

  lemma UnitOkAny(u: Unit, rest: string, rest': string)
    requires UnitOk(u, rest) && rest != [] && rest' != [] && rest[0] == rest'[0]
    ensures UnitOk(u, rest')
  {
    hide HexOk;
    if u.Binary? {
      HexOkAny(u.items, rest, rest');
    }
  }

  lemma DoubleUnquotes(units: seq<Unit>, rest: string, more: string)
    requires UnitsOk(units, "\"" + rest)
    ensures Unquoted("\"" + UnitsText(units) + "\"" + more, Bare) == UnitsMeaning(units) + Unquoted(more, Bare)
  {
    hide UnitsText, UnitsOk, UnitsMeaning, Unquoted;
    var b := UnitsText(units) + ("\"" + more);
    assert "\"" + UnitsText(units) + "\"" + more == "\"" + b;
    QuoteOpens(b);
    UnitsOkAny(units, rest, more);
    UnitsUnquote(units, more);
  }

  lemma QuotedUnquotes(x: string, more: string)
    requires '\'' !in x
    ensures Unquoted("'" + x + "'" + more, Bare) == x + Unquoted(more, Bare)
  {
    hide Unquoted;
    assert "'" + x + "'" + more == "'" + (x + "'" + more);
    QuoteOpens(x + "'" + more);
    SingleUnquotes(x, more);
  }

  lemma {:induction false} UnendedSingleUnquotes(x: string)
    requires '\'' !in x
    ensures Unquoted(x, QuoteState.Single) == x
  {
    hide Escape;
    if x != [] {
      UnendedSingleUnquotes(x[1..]);
      assert x == [x[0]] + x[1..];
    }
  }

  lemma UnendedUnquotes(x: string)
    requires '\'' !in x
    ensures Unquoted("'" + x + [], Bare) == x + Unquoted([], Bare)
  {
    hide Escape;
    assert "'" + x + [] == "'" + x;
    QuoteOpens(x);
    UnendedSingleUnquotes(x);
    assert x + [] == x;
  }

  lemma UnendedDoubleUnquotes(units: seq<Unit>)
    requires UnitsOk(units, [])
    ensures Unquoted("\"" + UnitsText(units) + [], Bare) == UnitsMeaning(units) + Unquoted([], Bare)
  {
    hide Escape, UnitsText, UnitsOk, UnitsMeaning;
    var t := UnitsText(units);
    assert "\"" + t + [] == "\"" + t;
    QuoteOpens(t);
    UnendedUnitsUnquote(units);
    assert UnitsMeaning(units) + [] == UnitsMeaning(units);
  }

  /** A token in front of more of an argument, which does not make a '\\' mean something else. */
  lemma TokenUnquotes(tok: Token, rest: string, more: string)
    requires TokenOk(tok, rest) && (tok == Plain('\\') ==> more == [] || more[0] != '<')
    requires tok.UnendedSingle? || tok.UnendedDouble? ==> more == []
    ensures Unquoted(TokenText(tok) + more, Bare) == TokenMeaning(tok) + Unquoted(more, Bare)
  {
    hide HexText, HexOk, UnitsText, UnitsOk, UnitsMeaning, Pairs, Digits, HexDigits, Unquoted, IsSpace, IsComment;
    match tok {
      case Plain(c) =>
        PlainUnquotes(c, more);
      case Single(x) =>
        QuotedUnquotes(x, more);
      case Double(units) =>
        DoubleUnquotes(units, rest, more);
      case Angle(items) =>
        HexOkAny(items, rest, more);
        AngleUnquotes(items, more);
      case UnendedSingle(x) =>
        UnendedUnquotes(x);
      case UnendedDouble(units) =>
        UnendedDoubleUnquotes(units);
    }
  }

  /** What cp_unquote is to make of it. */
  function Said(chunks: seq<Chunk>): (s: string)
  {
    if chunks == [] then []
    else if |chunks| == 1 then TokenMeaning(chunks[0].tok)
    else TokenMeaning(chunks[0].tok) + Between(chunks[0].gap) + Said(chunks[1..])
  }

  predicate AllSpace(s: string)
  {
    forall i :: 0 <= i < |s| ==> IsSpace(s[i])
  }

  lemma {:induction false} BetweenIsSpace(gap: seq<GapItem>, rest: string)
    requires GapOk(gap, rest)
    ensures AllSpace(Between(gap)) && (gap != [] ==> Between(gap) != [])
  {
    hide CommentOk, CommentText;
    if !HasNote(gap) && gap != [] {
      NoteFirst(gap);
      BetweenIsSpace(gap[1..], rest);
    }
  }

  lemma {:induction false} SpaceUnquotes(s: string, more: string)
    requires AllSpace(s)
    ensures Unquoted(s + more, Bare) == s + Unquoted(more, Bare)
  {
    if s == [] {
      assert s + more == more;
    } else {
      assert s + more == [s[0]] + (s[1..] + more);
      PlainUnquotes(s[0], s[1..] + more);
      SpaceUnquotes(s[1..], more);
      assert [s[0]] + (s[1..] + Unquoted(more, Bare)) == s + Unquoted(more, Bare);
    }
  }

  /** A plain backslash is followed by the same character as in the text, or by a space. */
  lemma BackslashStays(chunks: seq<Chunk>, rest: string)
    requires |chunks| > 1 && ChunksOk(chunks, rest) && chunks[0].tok == Plain('\\')
    ensures var more := Between(chunks[0].gap) + Plainly(chunks[1..]); more != [] && more[0] != '<'
  {
    hide GapText, Plainly, HasNote, Between;
    var gap, next := chunks[0].gap, chunks[1..];
    BetweenIsSpace(gap, ChunksText(next) + rest);
    PlainlyIsEmpty(next);
    if gap == [] {
      NoGap();
      TokenIsThere(next[0].tok);
      PlainlyStarts(next);
      ChunksCons(next, rest);
      var t := GapText(gap) + (ChunksText(next) + rest);
      assert t == TokenText(next[0].tok) + (GapText(next[0].gap) + (ChunksText(next[1..]) + rest));
      assert [] + Plainly(next) == Plainly(next);
    }
  }

  lemma NoGap()
    ensures GapText([]) == [] && Between([]) == []
  {
  }

  lemma PlainlyStarts(chunks: seq<Chunk>)
    requires chunks != []
    ensures TokenText(chunks[0].tok) != [] && Plainly(chunks) != [] && Plainly(chunks)[0] == TokenText(chunks[0].tok)[0]
  {
    hide TokenText, Between;
    TokenIsThere(chunks[0].tok);
  }

  lemma {:induction false} PlainlyUnquotes(chunks: seq<Chunk>, rest: string)
    requires ChunksOk(chunks, rest)
    ensures Unquoted(Plainly(chunks), Bare) == Said(chunks)
    decreases |chunks|
  {
    hide TokenText, TokenOk, TokenMeaning, GapOk, GapText, Between, Unquoted, HexDigits, Digits;
    if chunks == [] {
      NothingUnquotes();
    } else {
      var tok, gap, next := chunks[0].tok, chunks[0].gap, chunks[1..];
      var more := if next == [] then [] else Between(gap) + Plainly(next);
      PlainlyUnquotes(next, rest);
      if next != [] && tok == Plain('\\') {
        BackslashStays(chunks, rest);
      }
      if next != [] {
        NextIsThere(chunks, rest);
        if tok.UnendedSingle? || tok.UnendedDouble? {
          UnendedEnds(tok, GapText(gap) + (ChunksText(next) + rest));
        }
      }
      TokenUnquotes(tok, GapText(gap) + (ChunksText(next) + rest), more);
      assert forall i :: 0 < i < |chunks| ==> chunks[i] == next[i - 1];
      if next == [] {
        NothingUnquotes();
        assert TokenText(tok) + [] == TokenText(tok) && TokenMeaning(tok) + [] == TokenMeaning(tok);
      } else {
        BetweenIsSpace(gap, ChunksText(next) + rest);
        SpaceUnquotes(Between(gap), Plainly(next));
        Together(TokenText(tok), Between(gap), Plainly(next));
        Together(TokenMeaning(tok), Between(gap), Said(next));
      }
    }
  }

  lemma UnendedEnds(tok: Token, rest: string)
    requires TokenOk(tok, rest) && (tok.UnendedSingle? || tok.UnendedDouble?)
    ensures rest == []
  {
  }

  lemma NextIsThere(chunks: seq<Chunk>, rest: string)
    requires |chunks| > 1
    ensures GapText(chunks[0].gap) + (ChunksText(chunks[1..]) + rest) != []
  {
    hide GapText;
    TokenIsThere(chunks[1..][0].tok);
  }

  lemma NothingUnquotes()
    ensures Unquoted([], Bare) == []
  {
  }

  /** cp_unquote: quotes go, what they enclose stays as it is or has its escapes expanded, and \<...>
      is expanded outside of quotes too. */
  lemma TextUnquotes(lead: seq<GapItem>, chunks: seq<Chunk>)
    requires GapOk(lead, ChunksText(chunks)) && ChunksOk(chunks, [])
    ensures Unquote(GapText(lead) + ChunksText(chunks)) == Said(chunks)
  {
    hide GapText, ChunksText, Unquoted, GapOk, ChunksOk, Plainly, PartialUncomment, Said, Digits, HexDigits;
    assert ChunksText(chunks) + [] == ChunksText(chunks);
    TextUncomments(lead, chunks, [], false);
    PlainlyUnquotes(chunks, []);
  }

  // ---------------------------------------------------------------- some texts

  lemma OneToken(tok: Token, rest: string)
    requires TokenOk(tok, rest)
    ensures var a := Arg([], [Chunk(tok, [])]);
            && ArgText(a) == Plainly(a.chunks) == TokenText(tok) && Said(a.chunks) == TokenMeaning(tok) && ArgOk(a, rest)
  {
    hide TokenText, GapText, TokenOk, GapOk, TokenMeaning;
    var cs := [Chunk(tok, [])];
    NoGap();
    NoChunksOk(rest);
    assert cs[1..] == [];
    assert ChunksText(cs[1..]) + rest == rest;
    assert GapText(cs[0].gap) + (ChunksText(cs[1..]) + rest) == rest;
    NoGapOk(rest);
    NoGapOk(ChunksText(cs) + rest);
    assert ChunksText(cs) == TokenText(tok) + [] + [] == TokenText(tok);
    assert [] + ChunksText(cs) == ChunksText(cs);
  }

  lemma NoGapOk(rest: string)
    ensures GapOk([], rest)
  {
  }

  /** A single-quoted string is one argument, commas and comments in it or not, and means what it
      encloses. */
  lemma SingleQuoted(x: string, rest: string)
    requires '\'' !in x && Stops(rest, true)
    ensures Argvec("'" + x + "'" + rest) == ["'" + x + "'"] + if rest == [] then [] else Argvec(rest[1..])
    ensures Unquote("'" + x + "'") == x
  {
    hide Argvec, Unquote, ArgOk, ArgText, Plainly, Said;
    var tok := Token.Single(x);
    OneToken(tok, rest);
    OneToken(tok, []);
    OneArgument(Arg([], [Chunk(tok, [])]), rest);
    ArgUnquotes(Arg([], [Chunk(tok, [])]));
  }

  lemma ArgUnquotes(a: Arg)
    requires ArgOk(a, [])
    ensures Unquote(ArgText(a)) == Said(a.chunks)
  {
    hide Unquote, GapText, GapOk, ChunksText, ChunksOk, Said;
    assert ChunksText(a.chunks) + [] == ChunksText(a.chunks);
    TextUnquotes(a.lead, a.chunks);
  }

  /** Characters of a word as cp_is_word has it, none of which start a comment. */
  predicate IsWord(w: string)
  {
    && w != []
    && (forall i :: 0 <= i < |w| ==> 32 as char < w[i] < 127 as char && w[i] !in "\"'\\,")
    && (forall i :: 0 <= i < |w| - 1 ==> !IsComment(w[i..]))
  }

  /** A word as chunks, with gap behind it. */
  function Word(w: string, gap: seq<GapItem>): (chunks: seq<Chunk>)
    requires w != []
  {
    if |w| == 1 then [Chunk(Plain(w[0]), gap)] else [Chunk(Plain(w[0]), [])] + Word(w[1..], gap)
  }

  lemma WordTail(w: string)
    requires IsWord(w) && |w| > 1
    ensures IsWord(w[1..])
  {
    var v := w[1..];
    forall i | 0 <= i < |v| - 1
      ensures !IsComment(v[i..])
    {
      assert v[i..] == w[i + 1..];
    }
  }

  predicate WordChar(c: char)
  {
    32 as char < c < 127 as char && c !in "\"'\\,"
  }

  lemma WordCharIs(c: char, rest: string)
    requires WordChar(c) && !IsComment([c] + rest)
    ensures TokenOk(Plain(c), rest)
  {
  }

  lemma PlainFirst(c: char, gap: seq<GapItem>, more: seq<Chunk>, rest: string)
    requires WordChar(c) && GapOk(gap, ChunksText(more) + rest) && ChunksOk(more, rest)
    requires !IsComment([c] + (GapText(gap) + (ChunksText(more) + rest)))
    ensures var cs := [Chunk(Plain(c), gap)] + more;
            && ChunksText(cs) == [c] + (GapText(gap) + ChunksText(more)) && ChunksOk(cs, rest)
            && Plainly(cs) == [c] + (if more == [] then [] else Between(gap) + Plainly(more))
            && Said(cs) == [c] + (if more == [] then [] else Between(gap) + Said(more))
  {
    hide WordChar, IsComment, TokenOk, GapOk, GapText, Between;
    var cs := [Chunk(Plain(c), gap)] + more;
    assert cs[0] == Chunk(Plain(c), gap) && cs[1..] == more;
    WordCharIs(c, GapText(gap) + (ChunksText(more) + rest));
    Together([c], GapText(gap), ChunksText(more));
    if more != [] {
      Together([c], Between(gap), Plainly(more));
      Together([c], Between(gap), Said(more));
    }
  }

  lemma FirstTwo(a: string, b: string)
    requires |a| > 1 && |b| > 1 && a[0] == b[0] && a[1] == b[1]
    ensures IsComment(a) <==> IsComment(b)
  {
  }

  /** A word, the gap behind it and what follows, as chunks. */
  lemma {:induction false} WordIs(w: string, gap: seq<GapItem>, more: seq<Chunk>, rest: string)
    requires IsWord(w) && GapOk(gap, ChunksText(more) + rest) && ChunksOk(more, rest)
    requires w[|w| - 1] == '/' ==> !IsComment("/" + (GapText(gap) + (ChunksText(more) + rest)))
    ensures ChunksText(Word(w, gap) + more) == w + (GapText(gap) + ChunksText(more))
    ensures ChunksOk(Word(w, gap) + more, rest)
    ensures Plainly(Word(w, gap) + more) == w + if more == [] then [] else Between(gap) + Plainly(more)
    ensures Said(Word(w, gap) + more) == w + if more == [] then [] else Between(gap) + Said(more)
  {
    hide ChunksText, ChunksOk, Plainly, Said, GapText, GapOk, Between, WordChar;
    WordChars(w);
    if |w| == 1 {
      assert w == [w[0]];
      PlainFirst(w[0], gap, more, rest);
    } else {
      var v := w[1..];
      var tail, after := Word(v, gap) + more, GapText(gap) + ChunksText(more);
      WordTail(w);
      WordIs(v, gap, more, rest);
      assert Word(w, gap) + more == [Chunk(Plain(w[0]), [])] + tail;
      NoGap();
      NoGapOk(ChunksText(tail) + rest);
      assert [] + (ChunksText(tail) + rest) == ChunksText(tail) + rest;
      assert ([w[0]] + (ChunksText(tail) + rest))[1] == w[1];
      FirstTwo([w[0]] + (ChunksText(tail) + rest), w[0..]);
      PlainFirst(w[0], [], tail, rest);
      assert [] + ChunksText(tail) == ChunksText(tail) && [] + Plainly(tail) == Plainly(tail) && [] + Said(tail) == Said(tail);
      assert w == [w[0]] + v;
      Together([w[0]], v, after);
      Together([w[0]], v, if more == [] then [] else Between(gap) + Plainly(more));
      Together([w[0]], v, if more == [] then [] else Between(gap) + Said(more));
    }
  }

  lemma WordChars(w: string)
    requires IsWord(w)
    ensures forall i :: 0 <= i < |w| ==> WordChar(w[i])
    ensures |w| > 1 ==> !IsComment(w[0..])
  {
  }

  lemma StopsIsNoComment(c: char, rest: string)
    requires Stops(rest, true)
    ensures !IsComment([c] + rest)
  {
  }

  lemma NoChunksOk(rest: string)
    ensures ChunksOk([], rest) && ChunksText([]) == []
  {
  }

  /** A bare word is one argument and means itself. */
  lemma BareWord(w: string, rest: string)
    requires IsWord(w) && Stops(rest, true)
    ensures Argvec(w + rest) == [w] + if rest == [] then [] else Argvec(rest[1..])
    ensures Unquote(w) == w
  {
    hide Argvec, Unquote, ArgOk, ArgText, Plainly, Said, IsComment;
    var a := Arg([], Word(w, []));
    WordAlone(w, rest);
    WordAlone(w, []);
    OneArgument(a, rest);
    ArgUnquotes(a);
  }

  lemma WordAlone(w: string, rest: string)
    requires IsWord(w) && Stops(rest, true)
    ensures var a := Arg([], Word(w, []));
            ArgOk(a, rest) && ArgText(a) == w && Plainly(a.chunks) == w && Said(a.chunks) == w
  {
    hide GapText, GapOk, Plainly, Said, ChunksText, ChunksOk, IsComment;
    NoGap();
    NoGapOk(rest);
    NoChunksOk(rest);
    assert [] + rest == rest && "" + "" == "";
    StopsIsNoComment('/', rest);
    assert "/" == ['/'];
    WordIs(w, [], [], rest);
    assert Word(w, []) + [] == Word(w, []) && w + [] == w;
    NoGapOk(ChunksText(Word(w, [])) + rest);
    assert [] + w == w;
  }

  /** A comment between two words becomes one space. */
  lemma CommentBetween(v: string, comment: Comment, w: string)
    requires IsWord(v) && IsWord(w) && v[|v| - 1] != '/' && CommentOk(comment, w)
    ensures Argvec(v + CommentText(comment) + w) == [v + " " + w]
    ensures Unquote(v + CommentText(comment) + w) == v + " " + w
  {
    hide Argvec, Unquote, GapOk, Plainly, Said, ChunksText, ChunksOk, IsComment, CommentText, CommentOk;
    var more, gap := Word(w, []), [Note(comment)];
    WordAlone(w, []);
    assert ChunksText(more) == w by { NoGap(); assert [] + ChunksText(more) == ChunksText(more); }
    NoteOk(comment, w);
    assert ChunksText(more) + [] == w;
    WordIs(v, gap, more, []);
    var a := Arg([], Word(v, gap) + more);
    NoGap();
    NoGapOk(ChunksText(a.chunks) + []);
    assert ArgText(a) == [] + ChunksText(a.chunks) == ChunksText(a.chunks);
    Together(v, CommentText(comment), w);
    Together(v, " ", w);
    OneArgument(a, []);
    ArgUnquotes(a);
    assert ArgText(a) + [] == ArgText(a);
  }

  lemma NoteOk(comment: Comment, rest: string)
    requires CommentOk(comment, rest)
    ensures GapOk([Note(comment)], rest) && GapText([Note(comment)]) == CommentText(comment)
    ensures Between([Note(comment)]) == " "
  {
    hide CommentOk, CommentText;
    var gap := [Note(comment)];
    assert gap[1..] == [] && GapText([]) == [] && [] + rest == rest && gap[0].Note?;
    assert CommentText(comment) + [] == CommentText(comment);
  }
}
