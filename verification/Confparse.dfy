/** The scanners of click/lib/confparse.cc as they move through a string: each is shown to compute
    the function of the rest of the string that module Quoting gives for it. */
module Confparse {
  import opened Common
  import opened Quoting

  method SkipComment(str: string, s: nat) returns (r: nat)
    requires s <= |str| && IsComment(str[s..])
    ensures r == s + CommentLength(str[s..])
  {
    assert str[s..][1] == str[s + 1] && str[s..][2..] == str[s + 2..];
    r := s + 2;
    if str[s + 1] == '/' {
      while r + 1 < |str| && str[r] != '\n' && str[r] != '\r'
        invariant s + 2 <= r <= |str|
        invariant r - (s + 2) + LineLength(str[r..]) == LineLength(str[s + 2..])
      {
        assert str[r..][1..] == str[r + 1..];
        r := r + 1;
      }
      if r + 1 < |str| && str[r] == '\r' && str[r + 1] == '\n' {
        r := r + 1;
      }
      r := r + 1;
    } else {
      while r + 2 < |str| && (str[r] != '*' || str[r + 1] != '/')
        invariant s + 2 <= r <= |str|
        invariant r - (s + 2) + BlockLength(str[r..]) == BlockLength(str[s + 2..])
      {
        assert str[r..][1..] == str[r + 1..];
        r := r + 1;
      }
      r := r + 2;
    }
  }

  lemma DropDrop(str: string, s: nat, n: nat)
    requires s <= |str|
    ensures Drop(str[s..], n) == Drop(str, s + n)
  {
  }

  /** The test the source makes for a comment. */
  predicate CommentAt(str: string, r: nat)
  {
    r + 1 < |str| && str[r] == '/' && (str[r + 1] == '/' || str[r + 1] == '*')
  }

  lemma CommentAtIs(str: string, r: nat)
    requires r < |str|
    ensures CommentAt(str, r) <==> IsComment(str[r..])
  {
  }

  lemma HexStep(str: string, r: nat)
    requires r < |str|
    ensures HexLength(Drop(str, r))
            == if str[r] == '>' then 1
               else if IsComment(str[r..])
               then CommentLength(str[r..]) + HexLength(Drop(str, r + CommentLength(str[r..])))
               else 1 + HexLength(Drop(str, r + 1))
  {
    assert Drop(str, r) == str[r..] && str[r..][1..] == Drop(str, r + 1);
    if IsComment(str[r..]) {
      DropDrop(str, r, CommentLength(str[r..]));
    }
  }

  lemma SpaceStep(str: string, r: nat)
    requires r < |str|
    ensures SkipSpace(Drop(str, r))
            == if IsSpace(str[r]) then SkipSpace(Drop(str, r + 1))
               else if IsComment(str[r..]) then SkipSpace(Drop(str, r + CommentLength(str[r..])))
               else Drop(str, r)
  {
    assert Drop(str, r) == str[r..] && str[r..][1..] == Drop(str, r + 1);
    if IsComment(str[r..]) {
      DropDrop(str, r, CommentLength(str[r..]));
    }
  }

  lemma UncommentStep(str: string, s: nat, acc: string, cur: string, gap: string, closed: bool, comma: bool)
    requires s < |str|
    ensures var n := TokenLength(str[s..]);
            Uncomment(Drop(str, s), acc, cur, gap, closed, comma)
            == if IsSpace(str[s]) then Uncomment(Drop(str, s + 1), acc, cur, gap + [str[s]], closed, comma)
               else if IsComment(str[s..])
               then Uncomment(Drop(str, s + CommentLength(str[s..])), acc, cur, gap, true, comma)
               else if str[s] == ',' && comma then (acc + cur, Drop(str, s))
               else if closed then Uncomment(Drop(str, s), acc + cur + " ", [], [], false, comma)
               else if s + n > |str| then (acc, [])
               else Uncomment(Drop(str, s + n), acc, cur + gap + str[s..s + n], [], false, comma)
  {
    assert Drop(str, s) == str[s..] && str[s..][1..] == Drop(str, s + 1);
    var n := TokenLength(str[s..]);
    hide TokenLength, CommentLength, IsSpace;
    if IsComment(str[s..]) {
      DropDrop(str, s, CommentLength(str[s..]));
    }
    var none: string := [];
    assert none + none == none;
    if s + n <= |str| {
      assert str[s..][..n] == str[s..s + n] && str[s..][n..] == Drop(str, s + n);
    }
  }

  /** The loop of skip_backslash through a \<...> escape. */
  method SkipHex(str: string, s: nat) returns (r: nat)
    ensures r == s + HexLength(Drop(str, s))
  {
    hide CommentLength, HexLength, IsComment, Drop, CommentAt;
    r := s;
    while r < |str|
      invariant s <= r && r + HexLength(Drop(str, r)) == s + HexLength(Drop(str, s))
      decreases |str| - r
    {
      HexStep(str, r);
      CommentAtIs(str, r);
      if str[r] == '>' {
        return r + 1;
      } else if CommentAt(str, r) {
        r := SkipComment(str, r);
      } else {
        r := r + 1;
      }
    }
    NothingLeft(str, r);
  }

  method SkipBackslash(str: string, s: nat) returns (r: nat)
    requires s < |str| && str[s] == '\\'
    ensures r == s + BackslashLength(str[s..])
  {
    if s + 1 >= |str| {
      r := s + 1;
    } else if str[s + 1] == '<' {
      assert str[s..][2..] == Drop(str, s + 2);
      r := SkipHex(str, s + 2);
    } else if str[s + 1] == '\r' && s + 2 < |str| && str[s + 2] == '\n' {
      r := s + 3;
    } else {
      r := s + 2;
    }
  }

  lemma DoubleStep(str: string, r: nat)
    requires r < |str|
    ensures DoubleLength(Drop(str, r))
            == if str[r] == '\\' then BackslashLength(str[r..]) + DoubleLength(Drop(str, r + BackslashLength(str[r..])))
               else if str[r] == '\"' then 1
               else 1 + DoubleLength(Drop(str, r + 1))
  {
    hide BackslashLength;
    assert Drop(str, r) == str[r..] && str[r..][1..] == Drop(str, r + 1);
    if str[r] == '\\' {
      DropDrop(str, r, BackslashLength(str[r..]));
    }
  }

  lemma DoubleEnds(str: string, r: nat)
    requires r >= |str|
    ensures DoubleLength(Drop(str, r)) == 0
  {
  }

  lemma DoubleToken(str: string, s: nat)
    requires s < |str| && str[s] == '\"'
    ensures var n := 1 + DoubleLength(Drop(str, s + 1));
            TokenLength(str[s..]) == if n <= |str| - s then n else |str| - s
  {
    hide DoubleLength;
    assert str[s..][1..] == Drop(str, s + 1);
  }

  /** cp_skip_double_quote. */
  method SkipDoubleQuote(str: string, s: nat) returns (r: nat)
    requires s < |str| && str[s] == '\"'
    ensures r == s + TokenLength(str[s..]) <= |str|
  {
    hide DoubleLength, BackslashLength, TokenLength, Drop;
    DoubleToken(str, s);
    r := s + 1;
    while r < |str|
      invariant s + 1 <= r
      invariant r - (s + 1) + DoubleLength(Drop(str, r)) == DoubleLength(Drop(str, s + 1))
      decreases |str| - r
    {
      DoubleStep(str, r);
      if str[r] == '\\' {
        r := SkipBackslash(str, r);
      } else if str[r] == '\"' {
        return r + 1;
      } else {
        r := r + 1;
      }
    }
    DoubleEnds(str, r);
    r := |str|;
  }

  method SkipSingleQuote(str: string, s: nat) returns (r: nat)
    requires s < |str| && str[s] == '\''
    ensures r == s + TokenLength(str[s..]) <= |str|
    ensures || (r == |str| && '\'' !in str[s + 1..])
            || (r > s + 1 && str[r - 1] == '\'' && '\'' !in str[s + 1..r - 1])
  {
    assert str[s..][1..] == str[s + 1..];
    ghost var all := SingleLength(str[s + 1..]);
    r := s + 1;
    while r < |str|
      invariant s + 1 <= r <= |str|
      invariant r - (s + 1) + SingleLength(str[r..]) == all
      invariant '\'' !in str[s + 1..r]
    {
      if str[r] == '\'' {
        return r + 1;
      }
      assert str[r..][1..] == str[r + 1..];
      r := r + 1;
    }
  }

  /** cp_skip_comment_space. */
  method SkipCommentSpace(str: string, s: nat) returns (r: nat)
    requires s <= |str|
    ensures r >= s && Drop(str, r) == SkipSpace(str[s..])
  {
    hide CommentLength, IsSpace, SkipSpace, IsComment;
    assert Drop(str, s) == str[s..];
    r := s;
    while r < |str|
      invariant s <= r && SkipSpace(Drop(str, r)) == SkipSpace(str[s..])
      decreases |str| - r
    {
      SpaceStep(str, r);
      CommentAtIs(str, r);
      if IsSpace(str[r]) {
        r := r + 1;
      } else if CommentAt(str, r) {
        r := SkipComment(str, r);
      } else {
        return;
      }
    }
    NothingLeft(str, r);
  }

  lemma NothingLeft(str: string, r: nat)
    requires r >= |str|
    ensures Drop(str, r) == [] && SkipSpace([]) == [] && HexLength([]) == 0
  {
  }

  /** A token of partial_uncomment. */
  method SkipToken(str: string, s: nat) returns (r: nat)
    requires s < |str|
    ensures r == s + TokenLength(str[s..])
  {
    if str[s] == '\'' {
      r := SkipSingleQuote(str, s);
    } else if str[s] == '\"' {
      r := SkipDoubleQuote(str, s);
    } else if str[s] == '\\' && s + 1 < |str| && str[s + 1] == '<' {
      r := SkipBackslash(str, s);
    } else {
      r := s + 1;
    }
  }

  /** String::substring: empty if out of range. */
  function Substring(str: string, left: nat, right: nat): (t: string)
  {
    if left < right <= |str| then str[left..right] else []
  }

  /** What has been gathered, in terms of the source's accumulator and pointers. */
  ghost predicate Gathered(str: string, s: nat, left: nat, right: nat, closed: bool, cur: string, gap: string)
  {
    && left <= right <= s
    && cur == Substring(str, left, right)
    && (!closed && s <= |str| ==> gap == Substring(str, right, s))
  }

  lemma GatheredSpace(str: string, s: nat, left: nat, right: nat, closed: bool, cur: string, gap: string)
    requires Gathered(str, s, left, right, closed, cur, gap) && s < |str|
    ensures Gathered(str, s + 1, left, right, closed, cur, gap + [str[s]])
  {
  }

  lemma GatheredToken(str: string, s: nat, left: nat, right: nat, cur: string, gap: string, r: nat)
    requires Gathered(str, s, left, right, false, cur, gap) && s < r <= |str|
    ensures Gathered(str, r, left, r, false, cur + gap + str[s..r], [])
  {
    assert str[left..right] + str[right..s] + str[s..r] == str[left..r];
  }

  /** partial_uncomment, from position i on. */
  method PartialUncommentAt(str: string, i: nat, comma: bool) returns (text: string, pos: nat)
    requires i <= |str|
    ensures pos >= i && (text, Drop(str, pos)) == PartialUncomment(str[i..], comma)
  {
    hide TokenLength, CommentLength, Gathered, SkipSpace, IsSpace, IsComment, Uncomment, Substring, Drop, CommentAt;
    ghost var goal := PartialUncomment(str[i..], comma);
    var s := SkipCommentSpace(str, i);
    var sa, closed := [], false;
    var left: nat, right: nat := s, s;
    ghost var cur, gap := [], [];
    GatheredStarts(str, s);
    while s < |str|
      invariant s >= i && left <= s
      invariant Gathered(str, s, left, right, closed, cur, gap)
      invariant Uncomment(Drop(str, s), sa, cur, gap, closed, comma) == goal
      decreases |str| - s
    {
      UncommentStep(str, s, sa, cur, gap, closed, comma);
      CommentAtIs(str, s);
      if IsSpace(str[s]) {
        GatheredSpace(str, s, left, right, closed, cur, gap);
        gap := gap + [str[s]];
        s := s + 1;
      } else if CommentAt(str, s) {
        var r := SkipComment(str, s);
        GatheredComment(str, s, left, right, closed, cur, gap, r);
        s, closed := r, true;
      } else if str[s] == ',' && comma {
        break;
      } else {
        if closed {
          GatheredRestart(str, s, left, right, cur, gap);
          sa := sa + Substring(str, left, right) + " ";
          left, right, closed := s, s, false;
          cur, gap := [], [];
          UncommentStep(str, s, sa, cur, gap, closed, comma);
        }
        var r := SkipToken(str, s);
        if r <= |str| {
          GatheredToken(str, s, left, right, cur, gap, r);
          cur := cur + gap + str[s..r];
        } else {
          GatheredLost(str, left, r);
          UncommentEnd(str, r, sa, comma);
          cur := [];
        }
        gap := [];
        right, s := r, r;
      }
    }
    if s >= |str| {
      UncommentOver(str, s, sa, cur, gap, closed, comma);
    }
    GatheredIs(str, s, left, right, closed, cur, gap);
    text, pos := sa + Substring(str, left, right), s;
  }

  lemma UncommentEnd(str: string, s: nat, acc: string, comma: bool)
    requires s >= |str|
    ensures Uncomment(Drop(str, s), acc, [], [], false, comma) == (acc, [])
  {
    assert acc + [] == acc;
  }

  lemma UncommentOver(str: string, s: nat, acc: string, cur: string, gap: string, closed: bool, comma: bool)
    requires s >= |str|
    ensures Uncomment(Drop(str, s), acc, cur, gap, closed, comma) == (acc + cur, [])
  {
  }

  lemma GatheredStarts(str: string, s: nat)
    ensures Gathered(str, s, s, s, false, [], [])
  {
  }

  lemma GatheredComment(str: string, s: nat, left: nat, right: nat, closed: bool, cur: string, gap: string, r: nat)
    requires Gathered(str, s, left, right, closed, cur, gap) && s <= r
    ensures Gathered(str, r, left, right, true, cur, gap)
  {
  }

  lemma GatheredRestart(str: string, s: nat, left: nat, right: nat, cur: string, gap: string)
    requires Gathered(str, s, left, right, true, cur, gap) && s <= |str|
    ensures cur == Substring(str, left, right) && Gathered(str, s, s, s, false, [], [])
  {
  }

  lemma GatheredLost(str: string, left: nat, r: nat)
    requires r > |str| && left <= r
    ensures Gathered(str, r, left, r, false, [], [])
  {
  }

  lemma GatheredIs(str: string, s: nat, left: nat, right: nat, closed: bool, cur: string, gap: string)
    requires Gathered(str, s, left, right, closed, cur, gap)
    ensures cur == Substring(str, left, right)
  {
  }

  // ---------------------------------------------------------------- arguments

  lemma ArgvecStep(str: string, pos: nat, arg: string, next: nat)
    requires pos < |str| && (arg, Drop(str, next)) == PartialUncomment(str[pos..], true)
    ensures Argvec(Drop(str, pos))
            == (if arg != [] || next < |str| then [arg] else []) + Argvec(Drop(str, next + 1))
  {
    hide PartialUncomment;
    assert Drop(str, pos) == str[pos..];
    if next < |str| {
      assert Drop(str, next)[1..] == Drop(str, next + 1);
    }
  }

  lemma ArgvecEnds(str: string, pos: nat)
    requires pos >= |str|
    ensures Argvec(Drop(str, pos)) == []
  {
  }

  /** cp_argvec. */
  method CpArgvec(str: string) returns (conf: seq<string>)
    ensures conf == Argvec(str)
  {
    hide PartialUncomment, Argvec, Drop;
    conf := [];
    DropNone(str);
    if |str| == 0 {
      ArgvecEnds(str, 0);
      return;
    }
    var pos := 0;
    while pos < |str|
      invariant conf + Argvec(Drop(str, pos)) == Argvec(str)
      decreases |str| - pos
    {
      var arg, next := PartialUncommentAt(str, pos, true);
      ArgvecStep(str, pos, arg, next);
      ghost var more := Argvec(Drop(str, next + 1));
      if arg != [] || next < |str| {
        assert conf + ([arg] + more) == conf + [arg] + more;
        conf := conf + [arg];
      } else {
        assert [] + more == more;
      }
      pos := next + 1;
    }
    ArgvecEnds(str, pos);
    assert conf + [] == conf;
  }

  lemma DropNone(str: string)
    ensures Drop(str, 0) == str
  {
  }

  /** cp_unargvec. */
  method CpUnargvec(conf: seq<string>) returns (s: string)
    ensures s == Unargvec(conf)
  {
    if |conf| == 0 {
      return [];
    } else if |conf| == 1 {
      return conf[0];
    }
    s := conf[0];
    var i := 1;
    UnargvecFrom(conf, 0);
    while i < |conf|
      invariant 1 <= i <= |conf|
      invariant i < |conf| ==> s + ", " + Unargvec(conf[i..]) == Unargvec(conf)
      invariant i == |conf| ==> s == Unargvec(conf)
    {
      UnargvecFrom(conf, i);
      ghost var t := s;
      s := s + ", " + conf[i];
      if i + 1 < |conf| {
        assert t + ", " + (conf[i] + ", " + Unargvec(conf[i + 1..])) == s + ", " + Unargvec(conf[i + 1..]);
      }
      i := i + 1;
    }
  }

  lemma UnargvecFrom(conf: seq<string>, i: nat)
    requires i < |conf|
    ensures Unargvec(conf[i..]) == if i + 1 == |conf| then conf[i] else conf[i] + ", " + Unargvec(conf[i + 1..])
    ensures conf[0..] == conf
  {
    assert conf[i..][1..] == conf[i + 1..];
  }

  // ---------------------------------------------------------------- quoting

  lemma {:induction false} BodySnoc(s: string, c: char, allowNewlines: bool)
    ensures Body(s + [c], allowNewlines) == Body(s, allowNewlines) + Escaped(c, allowNewlines)
  {
    if s == [] {
      assert [c][1..] == [];
      assert s + [c] == [c];
    } else {
      assert (s + [c])[1..] == s[1..] + [c];
      BodySnoc(s[1..], c, allowNewlines);
    }
  }

  /** cp_quote. */
  method CpQuote(str: string, allowNewlines: bool) returns (q: string)
    ensures q == Quote(str, allowNewlines)
  {
    hide Escaped;
    if str == [] {
      return "\"\"";
    }
    var sa := "\"";
    var start, s := 0, 0;
    while s < |str|
      invariant 0 <= start <= s <= |str|
      invariant sa + str[start..s] == "\"" + Body(str[..s], allowNewlines)
    {
      assert str[..s + 1] == str[..s] + [str[s]];
      BodySnoc(str[..s], str[s], allowNewlines);
      var e := EscapeOne(str[s], allowNewlines);
      if e.Some? {
        assert "\"" + Body(str[..s], allowNewlines) + e.value == "\"" + (Body(str[..s], allowNewlines) + e.value);
        sa := sa + str[start..s] + e.value;
        start := s + 1;
        assert str[start..s + 1] == [];
      } else {
        assert "\"" + Body(str[..s], allowNewlines) + [str[s]] == "\"" + (Body(str[..s], allowNewlines) + [str[s]]);
        assert sa + str[start..s] + [str[s]] == sa + (str[start..s] + [str[s]]);
        assert str[start..s + 1] == str[start..s] + [str[s]];
      }
      s := s + 1;
    }
    assert str[..s] == str;
    q := sa + str[start..s] + "\"";
  }

  /** The switch of cp_quote: what to write instead of a character, if anything. */
  method EscapeOne(c: char, allowNewlines: bool) returns (e: Option<string>)
    ensures Escaped(c, allowNewlines) == if e.Some? then e.value else [c]
  {
    e := None;
    match c
    case '\\' => e := Some("\\\\");
    case '\"' => e := Some("\\\"");
    case '$' => e := Some("\\$");
    case '\t' => e := Some("\\t");
    case '\r' => e := Some("\\r");
    case '\n' =>
      if !allowNewlines {
        e := Some("\\n");
      }
    case _ =>
      if c < 32 as char || c >= 127 as char {
        var u := c as int % 256;
        e := Some(['\\', ('0' as int + u / 64) as char, ('0' as int + u / 8 % 8) as char, ('0' as int + u % 8) as char]);
      }
  }

  // ---------------------------------------------------------------- unquoting

  /** cp_process_backslash. */
  method ProcessBackslash(str: string, s: nat) returns (out: string, r: nat)
    requires s < |str| && str[s] == '\\'
    ensures s < r <= |str| && (out, str[r..]) == Escape(str[s..])
  {
    if s + 1 == |str| {
      return "\\", s + 1;
    }
    assert str[s..][1] == str[s + 1] && str[s..][2..] == str[s + 2..] && str[s..][1..] == str[s + 1..];
    var c := str[s + 1];
    if c == '\r' {
      out, r := [], if s + 2 < |str| && str[s + 2] == '\n' then s + 3 else s + 2;
    } else if c == '\n' {
      out, r := [], s + 2;
    } else if c == 'a' {
      out, r := [BEL], s + 2;
    } else if c == 'b' {
      out, r := [BS], s + 2;
    } else if c == 'f' {
      out, r := [FF], s + 2;
    } else if c == 'n' {
      out, r := "\n", s + 2;
    } else if c == 'r' {
      out, r := "\r", s + 2;
    } else if c == 't' {
      out, r := "\t", s + 2;
    } else if c == 'v' {
      out, r := [VT], s + 2;
    } else if IsOctal(c) {
      out, r := OctalEscape(str, s + 1);
    } else if c == 'x' {
      out, r := HexEscape(str, s + 2);
    } else if c == '<' {
      out, r := BinaryEscape(str, s + 2);
    } else {
      out, r := [c], s + 2;
    }
  }

  method OctalEscape(str: string, s: nat) returns (out: string, r: nat)
    requires s <= |str|
    ensures s <= r <= |str|
    ensures Octal(str[s..], 0, 3).1 == str[r..] && out == [ToChar(Octal(str[s..], 0, 3).0)]
  {
    var c, d := 0, 0;
    r := s;
    while r < |str| && IsOctal(str[r]) && d < 3
      invariant s <= r <= |str| && 0 <= d <= 3 && c >= 0
      invariant Octal(str[r..], c, 3 - d) == Octal(str[s..], 0, 3)
    {
      assert str[r..][1..] == str[r + 1..];
      c := c * 8 + (str[r] as int - '0' as int);
      r, d := r + 1, d + 1;
    }
    out := [ToChar(c)];
  }

  method HexEscape(str: string, s: nat) returns (out: string, r: nat)
    requires s <= |str|
    ensures s <= r <= |str|
    ensures Hex(str[s..], 0).1 == str[r..] && out == [ToChar(Hex(str[s..], 0).0)]
  {
    var c := 0;
    r := s;
    while r < |str| && HexValue(str[r]) >= 0
      invariant s <= r <= |str| && c >= 0
      invariant Hex(str[r..], c) == Hex(str[s..], 0)
    {
      assert str[r..][1..] == str[r + 1..];
      c := c * 16 + HexValue(str[r]);
      r := r + 1;
    }
    out := [ToChar(c)];
  }

  lemma PairsStep(str: string, r: nat, c: nat, second: bool)
    requires r < |str|
    ensures HexPairs(Drop(str, r), c, second)
            == if str[r] == '>' then ([], Drop(str, r + 1))
               else if HexValue(str[r]) >= 0 then
                 var c' := c * 16 + HexValue(str[r]);
                 if second then
                   var p := HexPairs(Drop(str, r + 1), 0, false);
                   ([ToChar(c')] + p.0, p.1)
                 else HexPairs(Drop(str, r + 1), c', true)
               else if IsComment(str[r..]) then HexPairs(Drop(str, r + CommentLength(str[r..])), c, second)
               else HexPairs(Drop(str, r + 1), c, second)
  {
    assert Drop(str, r) == str[r..] && str[r..][1..] == Drop(str, r + 1);
    hide CommentLength, HexValue, ToChar;
    if IsComment(str[r..]) {
      DropDrop(str, r, CommentLength(str[r..]));
    }
  }

  lemma PairsEnd(str: string, r: nat, c: nat, second: bool)
    requires r >= |str|
    ensures HexPairs(Drop(str, r), c, second) == ([], [])
  {
  }

  method BinaryEscape(str: string, s: nat) returns (out: string, r: nat)
    requires s <= |str|
    ensures s <= r <= |str|
    ensures out == HexPairs(str[s..], 0, false).0 && str[r..] == HexPairs(str[s..], 0, false).1
  {
    hide HexPairs, CommentLength, HexValue, ToChar, IsComment, CommentAt, Drop;
    ghost var goal := HexPairs(Drop(str, s), 0, false);
    assert Drop(str, s) == str[s..] by {
      DropIs(str, s);
    }
    var c, second := 0, false;
    out := [];
    r := s;
    while r < |str|
      invariant s <= r && c >= 0
      invariant goal.1 == HexPairs(Drop(str, r), c, second).1
      invariant goal.0 == out + HexPairs(Drop(str, r), c, second).0
      decreases |str| - r
    {
      PairsStep(str, r, c, second);
      CommentAtIs(str, r);
      if str[r] == '>' {
        DropIs(str, r + 1);
        return out, r + 1;
      }
      var d := HexValue(str[r]);
      if d >= 0 {
        c := c * 16 + d;
        if second {
          out := out + [ToChar(c)];
          c, second := 0, false;
        } else {
          second := true;
        }
        r := r + 1;
      } else if CommentAt(str, r) {
        r := SkipComment(str, r);
      } else {
        r := r + 1;
      }
    }
    PairsEnd(str, r, c, second);
    r := |str|;
  }

  lemma DropIs(str: string, s: nat)
    requires s <= |str|
    ensures Drop(str, s) == str[s..]
  {
  }

  /** A backslash that cp_unquote takes as the start of an escape. */
  predicate Escapes(x: string, s: nat, q: QuoteState)
    requires s < |x|
  {
    x[s] == '\\' && s + 1 < |x| && (q.Double? || (q.Bare? && x[s + 1] == '<'))
  }

  /** The state behind a quote that opens or closes. */
  function Toggled(c: char, q: QuoteState): (q': Option<QuoteState>)
  {
    if c == '\"' && q.Bare? then Some(Double)
    else if c == '\'' && q.Bare? then Some(Single)
    else if (c == '\"' && q.Double?) || (c == '\'' && q.Single?) then Some(Bare)
    else None
  }

  lemma UnquotedStep(x: string, s: nat, q: QuoteState)
    requires s < |x| && !Escapes(x, s, q)
    ensures Unquoted(x[s..], q)
            == match Toggled(x[s], q)
               case Some(q') => Unquoted(x[s + 1..], q')
               case None => [x[s]] + Unquoted(x[s + 1..], q)
  {
    hide Escape;
    assert x[s..][1..] == x[s + 1..];
  }

  lemma UnquotedEscape(x: string, s: nat, q: QuoteState, out: string, next: nat)
    requires s < |x| && Escapes(x, s, q) && next <= |x| && (out, x[next..]) == Escape(x[s..])
    ensures Unquoted(x[s..], q) == out + Unquoted(x[next..], q)
  {
    hide Escape;
    var t := x[s..];
    assert t[0] == x[s] && t[1] == x[s + 1];
  }

  lemma Appended(a: string, b: string, c: string)
    ensures a + (b + c) == a + b + c
  {
  }

  lemma UnquotedEnds(q: QuoteState)
    ensures Unquoted([], q) == []
  {
  }

  /** cp_unquote. */
  method CpUnquote(str: string) returns (r: string)
    ensures r == Unquote(str)
  {
    hide Escape, PartialUncomment, Unquoted, Toggled;
    var xtr, pos := PartialUncommentAt(str, 0, false);
    assert str[0..] == str;
    var sa := [];
    var q, start, s := Bare, 0, 0;
    ghost var done: string := [];
    assert xtr[0..] == xtr && [] + Unquoted(xtr, Bare) == Unquoted(xtr, Bare);
    while s < |xtr|
      invariant 0 <= start <= s <= |xtr| && done == sa + xtr[start..s]
      invariant done + Unquoted(xtr[s..], q) == Unquoted(xtr, Bare)
      invariant start == 0 ==> sa == []
    {
      if Escapes(xtr, s, q) {
        var out, next := ProcessBackslash(xtr, s);
        UnquotedEscape(xtr, s, q, out, next);
        Appended(done, out, Unquoted(xtr[next..], q));
        sa := sa + xtr[start..s] + out;
        start, s := next, next;
        done := done + out;
      } else {
        UnquotedStep(xtr, s, q);
        match Toggled(xtr[s], q)
        case Some(q') =>
          sa := sa + xtr[start..s];
          start, s, q := s + 1, s + 1, q';
        case None =>
          assert xtr[start..s + 1] == xtr[start..s] + [xtr[s]];
          Appended(done, [xtr[s]], Unquoted(xtr[s + 1..], q));
          done := done + [xtr[s]];
          s := s + 1;
      }
    }
    UnquotedEnds(q);
    assert xtr[s..] == [] && done + [] == done;
    if start == 0 {
      r := xtr;
      assert xtr[0..s] == xtr;
    } else {
      r := sa + xtr[start..s];
    }
  }
}
