/** Quoting in Click's configuration language (click/lib/confparse.cc): comments, quotes and
    backslash escapes, and the lists of arguments that configuration strings are split into. */
module Quoting {
  import opened Common

  // ---------------------------------------------------------------- characters

  const BEL := 7 as char
  const BS := 8 as char
  const VT := 11 as char
  const FF := 12 as char

  /** A string of bytes. */
  predicate Bytes(s: string)
  {
    forall i :: 0 <= i < |s| ==> s[i] < 256 as char
  }

  predicate IsComment(t: string)
  {
    |t| > 1 && t[0] == '/' && (t[1] == '/' || t[1] == '*')
  }

  function Drop(t: string, n: nat): (u: string)
    ensures |u| == if n <= |t| then |t| - n else 0
  {
    if n <= |t| then t[n..] else []
  }

  // ---------------------------------------------------------------- skipping
  // Each function takes the rest of a string and says how many characters to skip.

  /** To the end of a line, counting its newline. */
  function LineLength(t: string): (n: nat)
    ensures n > 0
  {
    if |t| > 1 && t[0] != '\n' && t[0] != '\r' then 1 + LineLength(t[1..])
    else if |t| > 1 && t[0] == '\r' && t[1] == '\n' then 2 else 1
  }

  /** To the end of a C comment. */
  function BlockLength(t: string): (n: nat)
    ensures n > 0
  {
    if |t| > 2 && (t[0] != '*' || t[1] != '/') then 1 + BlockLength(t[1..]) else 2
  }

  /** skip_comment; like the source, it can run past the end of an unfinished comment. */
  function CommentLength(t: string): (n: nat)
    requires IsComment(t)
    ensures n > 2
  {
    2 + if t[1] == '/' then LineLength(t[2..]) else BlockLength(t[2..])
  }

  /** The inside of a \<...> escape, up to and with the '>'. */
  function HexLength(t: string): (n: nat)
    decreases |t|
  {
    if t == [] then 0
    else if t[0] == '>' then 1
    else if IsComment(t) then CommentLength(t) + HexLength(Drop(t, CommentLength(t)))
    else 1 + HexLength(t[1..])
  }

  /** skip_backslash. */
  function BackslashLength(t: string): (n: nat)
    requires t != [] && t[0] == '\\'
    ensures n > 0
  {
    if |t| == 1 then 1
    else if t[1] == '<' then 2 + HexLength(t[2..])
    else if t[1] == '\r' && |t| > 2 && t[2] == '\n' then 3
    else 2
  }

  /** The inside of a double-quoted string, up to and with the closing quote. */
  function DoubleLength(t: string): (n: nat)
    decreases |t|
  {
    if t == [] then 0
    else if t[0] == '\\' then BackslashLength(t) + DoubleLength(Drop(t, BackslashLength(t)))
    else if t[0] == '\"' then 1
    else 1 + DoubleLength(t[1..])
  }

  function SingleLength(t: string): (n: nat)
  {
    if t == [] then 0 else if t[0] == '\'' then 1 else 1 + SingleLength(t[1..])
  }

  /** A quoted string, a \<...> escape, or one character. Only the escape can run past the end, when
      a comment in it is unfinished. */
  function TokenLength(t: string): (n: nat)
    requires t != []
    ensures n > 0
  {
    if t[0] == '\'' then 1 + SingleLength(t[1..])
    else if t[0] == '\"' then if DoubleLength(t[1..]) < |t| then 1 + DoubleLength(t[1..]) else |t|
    else if t[0] == '\\' && |t| > 1 && t[1] == '<' then BackslashLength(t)
    else 1
  }

  // ---------------------------------------------------------------- comments and arguments

  /** cp_skip_comment_space: what is left behind leading space and comments. */
  function SkipSpace(t: string): (u: string)
    ensures |u| <= |t|
    decreases |t|
  {
    if t == [] then []
    else if IsSpace(t[0]) then SkipSpace(t[1..])
    else if IsComment(t) then SkipSpace(Drop(t, CommentLength(t)))
    else t
  }

  /** The loop of partial_uncomment. Text up to the last comment is in acc, text since then in cur;
      gap is the space since, and closed says that a comment was among it. Returns the text and what
      is left from the comma on. A token that runs past the end takes cur with it, because the
      source then asks for a substring that is out of range. */
  function Uncomment(t: string, acc: string, cur: string, gap: string, closed: bool, comma: bool): (r: (string, string))
    ensures |r.1| <= |t| && (r.1 != [] ==> comma && r.1[0] == ',')
    decreases |t|
  {
    if t == [] then (acc + cur, [])
    else if IsSpace(t[0]) then Uncomment(t[1..], acc, cur, gap + [t[0]], closed, comma)
    else if IsComment(t) then Uncomment(Drop(t, CommentLength(t)), acc, cur, gap, true, comma)
    else if t[0] == ',' && comma then (acc + cur, t)
    else
      var n := TokenLength(t);
      var acc', cur' := if closed then acc + cur + " " else acc, if closed then [] else cur + gap;
      if n > |t| then (acc', []) else Uncomment(t[n..], acc', cur' + t[..n], [], false, comma)
  }

  /** partial_uncomment. */
  function PartialUncomment(t: string, comma: bool): (r: (string, string))
    ensures |r.1| <= |t| && (r.1 != [] ==> comma && r.1[0] == ',')
  {
    Uncomment(SkipSpace(t), [], [], [], false, comma)
  }

  /** cp_argvec. */
  function Argvec(t: string): (args: seq<string>)
    decreases |t|
  {
    if t == [] then []
    else
      var (arg, rest) := PartialUncomment(t, true);
      (if arg != [] || rest != [] then [arg] else []) + if rest == [] then [] else Argvec(rest[1..])
  }

  /** cp_unargvec. */
  function Unargvec(args: seq<string>): (s: string)
  {
    if args == [] then []
    else if |args| == 1 then args[0]
    else args[0] + ", " + Unargvec(args[1..])
  }

  // ---------------------------------------------------------------- escapes

  predicate IsOctal(c: char)
  {
    '0' <= c <= '7'
  }

  /** Conversion of an int to a char. */
  function ToChar(c: nat): (r: char)
    ensures r < 256 as char
  {
    (c % 256) as char
  }

  /** Up to n octal digits, after c: the value and what is left. */
  function Octal(t: string, c: nat, n: nat): (r: (nat, string))
    ensures |r.1| <= |t|
    decreases n
  {
    if n > 0 && t != [] && IsOctal(t[0]) then Octal(t[1..], c * 8 + (t[0] as int - '0' as int), n - 1) else (c, t)
  }

  function Hex(t: string, c: nat): (r: (nat, string))
    ensures |r.1| <= |t|
    decreases |t|
  {
    if t != [] && HexValue(t[0]) >= 0 then Hex(t[1..], c * 16 + HexValue(t[0])) else (c, t)
  }

  /** The inside of a \<...> escape: pairs of hex digits make characters, all else is ignored. */
  function HexPairs(t: string, c: nat, second: bool): (r: (string, string))
    ensures |r.1| <= |t|
    decreases |t|
  {
    if t == [] then ([], [])
    else if t[0] == '>' then ([], t[1..])
    else if HexValue(t[0]) >= 0 then
      var c' := c * 16 + HexValue(t[0]);
      if second then
        var (out, rest) := HexPairs(t[1..], 0, false);
        ([ToChar(c')] + out, rest)
      else HexPairs(t[1..], c', true)
    else if IsComment(t) then HexPairs(Drop(t, CommentLength(t)), c, second)
    else HexPairs(t[1..], c, second)
  }

  /** cp_process_backslash: what an escape stands for, and what follows it. */
  function Escape(t: string): (r: (string, string))
    requires t != [] && t[0] == '\\'
    ensures |r.1| < |t|
  {
    if |t| == 1 then ("\\", [])
    else
      var c, rest := t[1], t[2..];
      if c == '\r' then ([], if rest != [] && rest[0] == '\n' then rest[1..] else rest)
      else if c == '\n' then ([], rest)
      else if c == 'a' then ([BEL], rest)
      else if c == 'b' then ([BS], rest)
      else if c == 'f' then ([FF], rest)
      else if c == 'n' then ("\n", rest)
      else if c == 'r' then ("\r", rest)
      else if c == 't' then ("\t", rest)
      else if c == 'v' then ([VT], rest)
      else if IsOctal(c) then var (v, rest') := Octal(t[1..], 0, 3); ([ToChar(v)], rest')
      else if c == 'x' then var (v, rest') := Hex(rest, 0); ([ToChar(v)], rest')
      else if c == '<' then HexPairs(rest, 0, false)
      else ([c], rest)
  }

  datatype QuoteState = Bare | Double | Single

  /** The loop of cp_unquote. */
  function Unquoted(t: string, q: QuoteState): (s: string)
    decreases |t|
  {
    if t == [] then []
    else if t[0] == '\"' && q.Bare? then Unquoted(t[1..], Double)
    else if t[0] == '\'' && q.Bare? then Unquoted(t[1..], Single)
    else if (t[0] == '\"' && q.Double?) || (t[0] == '\'' && q.Single?) then Unquoted(t[1..], Bare)
    else if t[0] == '\\' && |t| > 1 && (q.Double? || (q.Bare? && t[1] == '<')) then
      var (out, rest) := Escape(t);
      out + Unquoted(rest, q)
    else [t[0]] + Unquoted(t[1..], q)
  }

  /** cp_unquote. */
  function Unquote(s: string): (r: string)
  {
    Unquoted(PartialUncomment(s, false).0, Bare)
  }

  // ---------------------------------------------------------------- quoting

  /** How a character is written between double quotes. */
  function Escaped(c: char, allowNewlines: bool): (s: string)
    ensures s != []
  {
    if c == '\\' || c == '\"' || c == '$' then ['\\', c]
    else if c == '\t' then "\\t"
    else if c == '\r' then "\\r"
    else if c == '\n' then if allowNewlines then "\n" else "\\n"
    else if c < 32 as char || c >= 127 as char then
      var u := c as int % 256;
      ['\\', ('0' as int + u / 64) as char, ('0' as int + u / 8 % 8) as char, ('0' as int + u % 8) as char]
    else [c]
  }

  function Body(s: string, allowNewlines: bool): (b: string)
  {
    if s == [] then [] else Escaped(s[0], allowNewlines) + Body(s[1..], allowNewlines)
  }

  /** cp_quote. */
  function Quote(s: string, allowNewlines: bool): (q: string)
  {
    "\"" + Body(s, allowNewlines) + "\""
  }

  // ---------------------------------------------------------------- quoting round trips

  lemma PlainSkips(c: char, rest: string)
    requires c != '\\' && c != '\"'
    ensures DoubleLength([c] + rest) == 1 + DoubleLength(rest)
  {
    assert ([c] + rest)[1..] == rest;
  }

  lemma PairSkips(c: char, rest: string)
    requires c != '<' && c != '\r'
    ensures DoubleLength(['\\', c] + rest) == 2 + DoubleLength(rest)
  {
    assert Drop(['\\', c] + rest, 2) == rest;
  }

  /** An escaped character is skipped as a unit. */
  lemma EscapedSkips(c: char, allowNewlines: bool, rest: string)
    ensures DoubleLength(Escaped(c, allowNewlines) + rest) == |Escaped(c, allowNewlines)| + DoubleLength(rest)
  {
    hide DoubleLength;
    var e := Escaped(c, allowNewlines);
    if |e| == 1 {
      PlainSkips(e[0], rest);
    } else if |e| == 2 {
      PairSkips(e[1], rest);
    } else {
      assert e + rest == ['\\', e[1]] + ([e[2]] + ([e[3]] + rest));
      PairSkips(e[1], [e[2]] + ([e[3]] + rest));
      PlainSkips(e[2], [e[3]] + rest);
      PlainSkips(e[3], rest);
    }
  }

  lemma {:induction false} BodySkips(s: string, allowNewlines: bool, rest: string)
    ensures DoubleLength(Body(s, allowNewlines) + "\"" + rest) == |Body(s, allowNewlines)| + 1
  {
    if s == [] {
      assert Body(s, allowNewlines) + "\"" + rest == "\"" + rest;
    } else {
      var e, b := Escaped(s[0], allowNewlines), Body(s[1..], allowNewlines);
      assert Body(s, allowNewlines) + "\"" + rest == e + (b + "\"" + rest);
      EscapedSkips(s[0], allowNewlines, b + "\"" + rest);
      BodySkips(s[1..], allowNewlines, rest);
    }
  }

  /** A quoted string is one token. */
  lemma QuoteIsToken(s: string, allowNewlines: bool, rest: string)
    ensures TokenLength(Quote(s, allowNewlines) + rest) == |Quote(s, allowNewlines)|
  {
    var b := Body(s, allowNewlines);
    assert (Quote(s, allowNewlines) + rest)[1..] == b + "\"" + rest;
    BodySkips(s, allowNewlines, rest);
  }

  lemma EscapeOctal(t: string)
    requires |t| > 1 && t[0] == '\\' && IsOctal(t[1])
    ensures Escape(t) == ([ToChar(Octal(t[1..], 0, 3).0)], Octal(t[1..], 0, 3).1)
  {
    hide Octal, Hex, HexPairs;
  }

  lemma EscapedOctal(c: char)
    requires c < 256 as char && (c < 32 as char || c >= 127 as char) && c != '\t' && c != '\r' && c != '\n'
    ensures var u := c as int;
            Escaped(c, false) == ['\\', ('0' as int + u / 64) as char, ('0' as int + u / 8 % 8) as char, ('0' as int + u % 8) as char]
  {
  }

  lemma OctalUnquotes(c: char, rest: string)
    requires c < 256 as char && (c < 32 as char || c >= 127 as char) && c != '\t' && c != '\r' && c != '\n'
    ensures Escape(Escaped(c, false) + rest) == ([c], rest)
  {
    hide Escape, Octal, Escaped;
    var u := c as int;
    OctalDigits(u);
    var d1, d2, d3 := ('0' as int + u / 64) as char, ('0' as int + u / 8 % 8) as char, ('0' as int + u % 8) as char;
    EscapedOctal(c);
    var t := ['\\', d1, d2, d3] + rest;
    assert t[1] == d1 && t[1..] == [d1, d2, d3] + rest;
    EscapeOctal(t);
    OctalThree(d1, d2, d3, rest);
  }

  lemma OctalDigits(u: nat)
    requires u < 256
    ensures u / 64 < 4 && u / 8 % 8 < 8 && u % 8 < 8
    ensures (u / 64 * 8 + u / 8 % 8) * 8 + u % 8 == u
  {
  }

  lemma OctalThree(d1: char, d2: char, d3: char, rest: string)
    requires IsOctal(d1) && IsOctal(d2) && IsOctal(d3)
    ensures Octal([d1, d2, d3] + rest, 0, 3)
            == (((d1 as int - 48) * 8 + (d2 as int - 48)) * 8 + (d3 as int - 48), rest)
  {
    assert ([d1, d2, d3] + rest)[1..] == [d2, d3] + rest;
    assert ([d2, d3] + rest)[1..] == [d3] + rest;
    assert ([d3] + rest)[1..] == rest;
  }

  lemma EscapedUnquotes(c: char, allowNewlines: bool, rest: string)
    requires c < 256 as char
    ensures Unquoted(Escaped(c, allowNewlines) + rest, Double) == [c] + Unquoted(rest, Double)
  {
    var e := Escaped(c, allowNewlines);
    var t := e + rest;
    if |e| == 1 {
      assert t[1..] == rest;
    } else if |e| == 2 {
      assert t[2..] == rest;
      assert Escape(t) == ([c], rest);
    } else {
      OctalUnquotes(c, rest);
    }
  }

  lemma ClosingQuote(rest: string)
    ensures Unquoted("\"" + rest, Double) == Unquoted(rest, Bare)
  {
    assert ("\"" + rest)[1..] == rest;
  }

  lemma {:induction false} BodyUnquotes(s: string, allowNewlines: bool, rest: string)
    requires Bytes(s)
    ensures Unquoted(Body(s, allowNewlines) + "\"" + rest, Double) == s + Unquoted(rest, Bare)
  {
    hide Unquoted, Escaped;
    if s == [] {
      assert Body(s, allowNewlines) + "\"" + rest == "\"" + rest;
      ClosingQuote(rest);
    } else {
      var e, b := Escaped(s[0], allowNewlines), Body(s[1..], allowNewlines);
      assert Body(s, allowNewlines) + "\"" + rest == e + (b + "\"" + rest);
      EscapedUnquotes(s[0], allowNewlines, b + "\"" + rest);
      BodyUnquotes(s[1..], allowNewlines, rest);
      assert [s[0]] + (s[1..] + Unquoted(rest, Bare)) == s + Unquoted(rest, Bare);
    }
  }

  /** Quoting protects a string from being taken for space, a comment or several arguments. */
  lemma QuoteUncomments(s: string, allowNewlines: bool, rest: string, comma: bool)
    requires rest != [] ==> comma && rest[0] == ','
    ensures PartialUncomment(Quote(s, allowNewlines) + rest, comma) == (Quote(s, allowNewlines), rest)
  {
    var q := Quote(s, allowNewlines);
    var t := q + rest;
    QuoteIsToken(s, allowNewlines, rest);
    assert t[0] == '\"';
    hide TokenLength;
    assert t[|q|..] == rest && t[..|q|] == q;
    assert SkipSpace(t) == t;
    assert [] + [] + q == q;
    assert Uncomment(t, [], [], [], false, comma) == Uncomment(rest, [], q, [], false, comma);
  }

  /** For every string of bytes, unquoting undoes quoting, whatever is done with newlines. */
  lemma UnquoteQuote(s: string, allowNewlines: bool)
    requires Bytes(s)
    ensures Unquote(Quote(s, allowNewlines)) == s
  {
    var q, b := Quote(s, allowNewlines), Body(s, allowNewlines);
    assert q + [] == q;
    QuoteUncomments(s, allowNewlines, [], false);
    assert q[1..] == b + "\"" + [];
    BodyUnquotes(s, allowNewlines, []);
    assert s + [] == s;
  }

  function QuoteAll(v: seq<string>, allowNewlines: bool): (q: seq<string>)
    ensures |q| == |v|
  {
    if v == [] then [] else [Quote(v[0], allowNewlines)] + QuoteAll(v[1..], allowNewlines)
  }

  function UnquoteAll(v: seq<string>): (u: seq<string>)
    ensures |u| == |v|
  {
    if v == [] then [] else [Unquote(v[0])] + UnquoteAll(v[1..])
  }

  lemma SpaceBeforeArguments(t: string)
    ensures Argvec(" " + t) == if t == [] then Argvec(" ") else Argvec(t)
  {
    assert (" " + t)[1..] == t;
    assert SkipSpace(" " + t) == SkipSpace(t);
    assert " " + [] == " ";
  }

  lemma ArgvecOfQuote(s: string, allowNewlines: bool, rest: string)
    requires rest != [] ==> rest[0] == ','
    ensures Argvec(Quote(s, allowNewlines) + rest)
            == [Quote(s, allowNewlines)] + if rest == [] then [] else Argvec(rest[1..])
  {
    QuoteUncomments(s, allowNewlines, rest, true);
    hide PartialUncomment;
  }

  lemma UnargvecIsNotEmpty(v: seq<string>, allowNewlines: bool)
    requires v != []
    ensures Unargvec(QuoteAll(v, allowNewlines)) != []
  {
    assert QuoteAll(v, allowNewlines)[0] == Quote(v[0], allowNewlines);
  }

  lemma UnargvecOfMany(q: string, qs: seq<string>)
    ensures Unargvec([q] + qs) == if qs == [] then q else q + (", " + Unargvec(qs))
  {
    assert ([q] + qs)[1..] == qs;
  }

  lemma QuoteAllCons(v: seq<string>, allowNewlines: bool)
    requires v != []
    ensures QuoteAll(v, allowNewlines) == [Quote(v[0], allowNewlines)] + QuoteAll(v[1..], allowNewlines)
    ensures |QuoteAll(v[1..], allowNewlines)| == |v| - 1
  {
    hide Quote;
  }

  lemma ArgvecOfNone(allowNewlines: bool)
    ensures Argvec(Unargvec([])) == [] && QuoteAll([], allowNewlines) == []
  {
  }

  /** Splitting what was joined gives back the quoted arguments. */
  lemma {:induction false} ArgvecUnargvec(v: seq<string>, allowNewlines: bool)
    ensures Argvec(Unargvec(QuoteAll(v, allowNewlines))) == QuoteAll(v, allowNewlines)
  {
    hide Argvec, Unargvec, QuoteAll, Quote;
    if v == [] {
      ArgvecOfNone(allowNewlines);
    } else {
      var q, qs := Quote(v[0], allowNewlines), QuoteAll(v[1..], allowNewlines);
      QuoteAllCons(v, allowNewlines);
      UnargvecOfMany(q, qs);
      if |v| == 1 {
        assert q + [] == q;
        ArgvecOfQuote(v[0], allowNewlines, []);
      } else {
        var rest := Unargvec(qs);
        ArgvecUnargvec(v[1..], allowNewlines);
        ArgvecOfQuote(v[0], allowNewlines, ", " + rest);
        assert (", " + rest)[1..] == " " + rest;
        SpaceBeforeArguments(rest);
        UnargvecIsNotEmpty(v[1..], allowNewlines);
      }
    }
  }

  lemma {:induction false} UnquoteQuoteAll(v: seq<string>, allowNewlines: bool)
    requires forall i :: 0 <= i < |v| ==> Bytes(v[i])
    ensures UnquoteAll(QuoteAll(v, allowNewlines)) == v
  {
    if v != [] {
      assert QuoteAll(v, allowNewlines)[1..] == QuoteAll(v[1..], allowNewlines);
      UnquoteQuote(v[0], allowNewlines);
      UnquoteQuoteAll(v[1..], allowNewlines);
      assert v == [v[0]] + v[1..];
    }
  }

  /** For every list of byte strings: quoting each, joining, splitting and unquoting each gives the
      list back. */
  lemma ArgumentsRoundTrip(v: seq<string>, allowNewlines: bool)
    requires forall i :: 0 <= i < |v| ==> Bytes(v[i])
    ensures UnquoteAll(Argvec(Unargvec(QuoteAll(v, allowNewlines)))) == v
  {
    ArgvecUnargvec(v, allowNewlines);
    UnquoteQuoteAll(v, allowNewlines);
  }

  // ---------------------------------------------------------------- what is written

  lemma {:induction false} BodyChars(s: string, allowNewlines: bool)
    ensures forall i :: 0 <= i < |Body(s, allowNewlines)| ==>
              var c := Body(s, allowNewlines)[i]; 32 as char <= c < 127 as char || (allowNewlines && c == '\n')
  {
    if s != [] {
      BodyChars(s[1..], allowNewlines);
      EscapedChars(s[0], allowNewlines);
    }
  }

  lemma EscapedChars(c: char, allowNewlines: bool)
    ensures forall i :: 0 <= i < |Escaped(c, allowNewlines)| ==>
              var d := Escaped(c, allowNewlines)[i]; 32 as char <= d < 127 as char || (allowNewlines && d == '\n')
  {
  }

  /** A quoted string is printable, on one line unless newlines are allowed. */
  lemma QuoteIsPrintable(s: string, allowNewlines: bool)
    ensures forall i :: 0 <= i < |Quote(s, allowNewlines)| ==>
              var c := Quote(s, allowNewlines)[i]; 32 as char <= c < 127 as char || (allowNewlines && c == '\n')
  {
    BodyChars(s, allowNewlines);
  }

  /** Characters that are printable and mean nothing special are quoted as they are. */
  lemma {:induction false} PlainBody(s: string, allowNewlines: bool)
    requires forall i :: 0 <= i < |s| ==> 32 as char <= s[i] < 127 as char && s[i] !in "\\\"$"
    ensures Body(s, allowNewlines) == s
  {
    if s != [] {
      PlainBody(s[1..], allowNewlines);
      assert s == [s[0]] + s[1..];
    }
  }

  /** Joining puts a comma and a space between, and nothing else. */
  lemma {:induction false} UnargvecJoins(v: seq<string>, w: seq<string>)
    requires v != [] && w != []
    ensures Unargvec(v + w) == Unargvec(v) + ", " + Unargvec(w)
    decreases |v|
  {
    if |v| == 1 {
      assert (v + w)[1..] == w;
    } else {
      assert (v + w)[1..] == v[1..] + w;
      UnargvecJoins(v[1..], w);
    }
  }
}
