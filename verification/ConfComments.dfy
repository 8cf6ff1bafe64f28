/** Comments and the space around them in configuration strings, and the inside of \<...> escapes, in
    terms of what they are made of. */
module ConfComments {
  import opened Common
  import opened Quoting

  // ---------------------------------------------------------------- comments

  datatype Comment = Line(body: string, newline: string) | Block(body: string) | Unended(body: string)

  function CommentText(c: Comment): (s: string)
  {
    match c
    case Line(body, newline) => "//" + body + newline
    case Block(body) => "/*" + body + "*/"
    case Unended(body) => "/*" + body
  }

  predicate NoBlockEnd(body: string)
  {
    forall i :: 0 <= i < |body| - 1 ==> !(body[i] == '*' && body[i + 1] == '/')
  }

  /** A comment in front of rest. A line ends in "\n", "\r", "\r\n" or with the text, and so does a
      block that is not closed. */
  predicate CommentOk(c: Comment, rest: string)
  {
    match c
    case Line(body, newline) =>
      && '\n' !in body && '\r' !in body
      && (|| newline == "\n" || newline == "\r\n" || (newline == "\r" && (rest == [] || rest[0] != '\n'))
          || (newline == [] && rest == []))
    case Block(body) => NoBlockEnd(body)
    case Unended(body) => NoBlockEnd(body) && rest == []
  }

  lemma {:induction false} LineSkips(body: string, newline: string, rest: string)
    requires CommentOk(Line(body, newline), rest)
    ensures Drop(body + newline + rest, LineLength(body + newline + rest)) == rest
    decreases |body|
  {
    var t := body + newline + rest;
    if body == [] {
      assert t == newline + rest;
      assert |newline| <= |t| ==> t[|newline|..] == rest;
    } else if |t| > 1 {
      assert t[1..] == body[1..] + newline + rest;
      LineSkips(body[1..], newline, rest);
    }
  }

  lemma {:induction false} BlockSkips(body: string, rest: string)
    requires CommentOk(Block(body), rest)
    ensures BlockLength(body + "*/" + rest) == |body| + 2
    decreases |body|
  {
    var t := body + "*/" + rest;
    if body == [] {
      assert t == "*/" + rest;
    } else {
      assert t[1..] == body[1..] + "*/" + rest;
      assert t[0] == body[0] && t[1] == if |body| > 1 then body[1] else '*';
      BlockSkips(body[1..], rest);
    }
  }

  lemma {:induction false} UnendedSkips(body: string)
    requires NoBlockEnd(body)
    ensures BlockLength(body) >= |body|
  {
    if |body| > 2 {
      UnendedSkips(body[1..]);
    }
  }

  /** A comment is skipped as a whole. */
  lemma CommentSkips(c: Comment, rest: string)
    requires CommentOk(c, rest)
    ensures var t := CommentText(c) + rest;
            IsComment(t) && !IsSpace(t[0]) && Drop(t, CommentLength(t)) == rest
  {
    hide LineLength, BlockLength;
    var t := CommentText(c) + rest;
    match c {
      case Line(body, newline) =>
        assert t[2..] == body + newline + rest;
        LineSkips(body, newline, rest);
        assert Drop(t, CommentLength(t)) == Drop(t[2..], LineLength(t[2..]));
      case Block(body) =>
        assert t[2..] == body + "*/" + rest;
        BlockSkips(body, rest);
        assert t[|body| + 4..] == rest;
      case Unended(body) =>
        assert t[2..] == body;
        UnendedSkips(body);
    }
  }

  // ---------------------------------------------------------------- gaps

  datatype GapItem = Blank(c: char) | Note(comment: Comment)

  function GapText(gap: seq<GapItem>): (s: string)
  {
    if gap == [] then []
    else (if gap[0].Blank? then [gap[0].c] else CommentText(gap[0].comment)) + GapText(gap[1..])
  }

  predicate GapOk(gap: seq<GapItem>, rest: string)
  {
    gap != [] ==>
      && (if gap[0].Blank? then IsSpace(gap[0].c) else CommentOk(gap[0].comment, GapText(gap[1..]) + rest))
      && GapOk(gap[1..], rest)
  }

  predicate HasNote(gap: seq<GapItem>)
  {
    exists i :: 0 <= i < |gap| && gap[i].Note?
  }

  /** Spaces are kept as they are, but become one space together with comments among them. */
  function Between(gap: seq<GapItem>): (s: string)
  {
    if HasNote(gap) then " " else GapText(gap)
  }

  function Blanks(gap: seq<GapItem>): (s: string)
  {
    if gap == [] then [] else (if gap[0].Blank? then [gap[0].c] else []) + Blanks(gap[1..])
  }

  lemma {:induction false} BlanksAre(gap: seq<GapItem>)
    ensures !HasNote(gap) ==> Blanks(gap) == GapText(gap)
  {
    if gap != [] {
      BlanksAre(gap[1..]);
      NoteFirst(gap);
    }
  }

  lemma NoteFirst(gap: seq<GapItem>)
    requires gap != []
    ensures HasNote(gap) <==> gap[0].Note? || HasNote(gap[1..])
  {
    var more := gap[1..];
    assert forall i :: 0 <= i < |more| ==> more[i] == gap[i + 1];
    assert forall i :: 0 < i < |gap| ==> gap[i] == more[i - 1];
  }

  lemma GapCons(gap: seq<GapItem>, rest: string)
    requires gap != []
    ensures gap[0].Blank? ==> GapText(gap) + rest == [gap[0].c] + (GapText(gap[1..]) + rest)
    ensures gap[0].Note? ==> GapText(gap) + rest == CommentText(gap[0].comment) + (GapText(gap[1..]) + rest)
  {
    hide CommentText;
    var first := if gap[0].Blank? then [gap[0].c] else CommentText(gap[0].comment);
    assert GapText(gap) == first + GapText(gap[1..]);
    Together(first, GapText(gap[1..]), rest);
  }

  lemma Together(a: string, b: string, c: string)
    ensures (a + b) + c == a + (b + c)
  {
  }

  lemma {:induction false} SpaceSkips(gap: seq<GapItem>, rest: string)
    requires GapOk(gap, rest)
    ensures SkipSpace(GapText(gap) + rest) == SkipSpace(rest)
    decreases |gap|
  {
    hide CommentText, CommentOk, CommentLength, IsSpace, IsComment;
    if gap == [] {
      assert GapText(gap) + rest == rest;
    } else {
      var more := GapText(gap[1..]) + rest;
      GapCons(gap, rest);
      SpaceSkips(gap[1..], rest);
      if gap[0].Blank? {
        assert ([gap[0].c] + more)[1..] == more;
      } else {
        CommentSkips(gap[0].comment, more);
      }
    }
  }

  lemma {:induction false} GapUncomments(
    gap: seq<GapItem>, rest: string, acc: string, cur: string, space: string, closed: bool, comma: bool)
    requires GapOk(gap, rest)
    ensures Uncomment(GapText(gap) + rest, acc, cur, space, closed, comma)
            == Uncomment(rest, acc, cur, space + Blanks(gap), closed || HasNote(gap), comma)
    decreases |gap|
  {
    hide CommentText, CommentOk, CommentLength, IsSpace, IsComment, HasNote, TokenLength;
    if gap == [] {
      NoNote();
      assert GapText(gap) + rest == rest && space + [] == space;
    } else {
      var more := GapText(gap[1..]) + rest;
      GapCons(gap, rest);
      NoteFirst(gap);
      if gap[0].Blank? {
        assert ([gap[0].c] + more)[1..] == more;
        GapUncomments(gap[1..], rest, acc, cur, space + [gap[0].c], closed, comma);
        assert space + [gap[0].c] + Blanks(gap[1..]) == space + Blanks(gap);
      } else {
        CommentSkips(gap[0].comment, more);
        GapUncomments(gap[1..], rest, acc, cur, space, true, comma);
        assert [] + Blanks(gap[1..]) == Blanks(gap[1..]);
      }
    }
  }

  lemma NoNote()
    ensures !HasNote([])
  {
  }

  // ---------------------------------------------------------------- bytes in hex

  /** What may stand inside a \<...> escape: hex digits, other characters, which are ignored, and
      comments. */
  datatype HexItem = Digit(c: char) | Other(c: char) | Remark(comment: Comment)

  function HexText(items: seq<HexItem>): (s: string)
  {
    if items == [] then []
    else (if items[0].Remark? then CommentText(items[0].comment) else [items[0].c]) + HexText(items[1..])
  }

  predicate HexOk(items: seq<HexItem>, rest: string)
  {
    items != [] ==>
      && (match items[0]
          case Digit(c) => HexValue(c) >= 0
          case Other(c) => HexValue(c) < 0 && c != '>' && !IsComment([c] + (HexText(items[1..]) + rest))
          case Remark(comment) => CommentOk(comment, HexText(items[1..]) + rest))
      && HexOk(items[1..], rest)
  }

  function Digits(items: seq<HexItem>): (s: string)
  {
    if items == [] then [] else (if items[0].Digit? then [items[0].c] else []) + Digits(items[1..])
  }

  predicate HexDigits(s: string)
  {
    forall i :: 0 <= i < |s| ==> HexValue(s[i]) >= 0
  }

  /** Two hex digits for a character; one left over is dropped. */
  function Pairs(digits: string): (s: string)
  {
    if |digits| < 2 then [] else [ByteOf(HexValue(digits[0]) * 16 + HexValue(digits[1]))] + Pairs(digits[2..])
  }

  /** The character of code v. */
  function ByteOf(v: int): (c: char)
  {
    (v % 256) as char
  }

  lemma HexCons(items: seq<HexItem>, rest: string)
    requires items != []
    ensures items[0].Remark? ==> HexText(items) + rest == CommentText(items[0].comment) + (HexText(items[1..]) + rest)
    ensures !items[0].Remark? ==> HexText(items) + rest == [items[0].c] + (HexText(items[1..]) + rest)
  {
    hide CommentText;
    var first := if items[0].Remark? then CommentText(items[0].comment) else [items[0].c];
    assert HexText(items) == first + HexText(items[1..]);
    Together(first, HexText(items[1..]), rest);
  }

  lemma NoHex()
    ensures HexValue('/') < 0 && HexValue('>') < 0
  {
  }

  lemma DigitIs(c: char, rest: string)
    requires HexValue(c) >= 0
    ensures c != '>' && !IsComment([c] + rest)
  {
  }

  lemma {:induction false} HexSkips(items: seq<HexItem>, rest: string)
    requires HexOk(items, ">" + rest)
    ensures HexLength(HexText(items) + (">" + rest)) == |HexText(items)| + 1
    decreases |items|
  {
    hide CommentText, CommentOk, IsComment, HexValue, CommentLength;
    var t := HexText(items) + (">" + rest);
    if items == [] {
      assert t == ">" + rest;
    } else {
      var more := HexText(items[1..]) + (">" + rest);
      HexCons(items, ">" + rest);
      HexSkips(items[1..], rest);
      if items[0].Remark? {
        CommentSkips(items[0].comment, more);
        CommentStarts(items[0].comment);
      } else {
        if items[0].Digit? {
          DigitIs(items[0].c, more);
        }
        assert t[1..] == more;
      }
    }
  }

  lemma CommentStarts(c: Comment)
    ensures CommentText(c) != [] && CommentText(c)[0] == '/'
  {
  }

  lemma {:induction false} DigitsAreHex(items: seq<HexItem>, rest: string)
    requires HexOk(items, rest)
    ensures HexDigits(Digits(items))
  {
    hide HexValue, CommentOk, IsComment;
    if items != [] {
      DigitsAreHex(items[1..], rest);
    }
  }

  /** Whether a comment is complete does not depend on what comes after the next character. */
  lemma CommentOkAny(c: Comment, rest: string, rest': string)
    requires CommentOk(c, rest) && rest != [] && rest' != [] && rest[0] == rest'[0]
    ensures CommentOk(c, rest')
  {
  }

  lemma {:induction false} HexOkAny(items: seq<HexItem>, rest: string, rest': string)
    requires HexOk(items, ">" + rest)
    ensures HexOk(items, ">" + rest')
  {
    hide HexValue, CommentOk, CommentText;
    if items != [] {
      HexOkAny(items[1..], rest, rest');
      var a, b := HexText(items[1..]) + (">" + rest), HexText(items[1..]) + (">" + rest');
      assert a[0] == b[0];
      match items[0]
      case Digit(c) =>
      case Other(c) => assert ([c] + a)[1] == a[0] && ([c] + b)[1] == b[0];
      case Remark(comment) => CommentOkAny(comment, a, b);
    }
  }

  lemma HexDigitReads(d: char, rest: string, c: nat, second: bool)
    requires HexValue(d) >= 0
    ensures HexPairs([d] + rest, c, second)
            == if second then ([ToChar(c * 16 + HexValue(d))] + HexPairs(rest, 0, false).0, HexPairs(rest, 0, false).1)
               else HexPairs(rest, c * 16 + HexValue(d), true)
  {
    hide IsComment, CommentLength, ToChar;
    DigitIs(d, rest);
    assert ([d] + rest)[1..] == rest;
    hide HexValue;
  }

  lemma HexOtherReads(d: char, rest: string, c: nat, second: bool)
    requires HexValue(d) < 0 && d != '>' && !IsComment([d] + rest)
    ensures HexPairs([d] + rest, c, second) == HexPairs(rest, c, second)
  {
    hide HexValue, IsComment, CommentLength, ToChar;
    assert ([d] + rest)[1..] == rest;
  }

  lemma HexRemarkReads(comment: Comment, rest: string, c: nat, second: bool)
    requires CommentOk(comment, rest)
    ensures HexPairs(CommentText(comment) + rest, c, second) == HexPairs(rest, c, second)
  {
    NoHex();
    hide HexValue, CommentText, CommentOk, IsComment, CommentLength, ToChar;
    CommentSkips(comment, rest);
    CommentStarts(comment);
  }

  lemma HexEndReads(rest: string, c: nat, second: bool)
    ensures HexPairs(">" + rest, c, second) == ([], rest)
  {
    hide HexValue, IsComment, CommentLength, ToChar;
    assert (">" + rest)[1..] == rest;
  }

  /** The value of a digit that waits for another. */
  function Waiting(pending: string): (c: nat)
    requires |pending| <= 1 && HexDigits(pending)
  {
    if pending == [] then 0 else HexValue(pending[0])
  }

  lemma PairsCons(a: char, b: char, more: string)
    requires HexDigits([a, b] + more) && HexDigits(more)
    ensures HexValue(a) >= 0 && HexValue(b) >= 0
    ensures Pairs([a, b] + more) == [ToChar(HexValue(a) * 16 + HexValue(b))] + Pairs(more)
  {
    hide HexValue, ToChar;
    var t := [a, b] + more;
    assert t[0] == a && t[1] == b && t[2..] == more;
    ByteIs(a, b);
  }

  lemma {:induction false} HexReads(items: seq<HexItem>, rest: string, pending: string)
    requires HexOk(items, ">" + rest) && |pending| <= 1 && HexDigits(pending)
    ensures HexDigits(pending + Digits(items))
    ensures HexPairs(HexText(items) + (">" + rest), Waiting(pending), pending != [])
            == (Pairs(pending + Digits(items)), rest)
    decreases |items|
  {
    hide HexPairs, CommentText, CommentOk, IsComment, HexValue, ToChar, Pairs;
    DigitsAreHex(items, ">" + rest);
    if items == [] {
      assert HexText(items) + (">" + rest) == ">" + rest && pending + [] == pending;
      HexEndReads(rest, Waiting(pending), pending != []);
      FewPairs(pending);
    } else {
      var more, ds := HexText(items[1..]) + (">" + rest), Digits(items[1..]);
      HexCons(items, ">" + rest);
      DigitsAreHex(items[1..], ">" + rest);
      match items[0] {
        case Digit(c) =>
          HexReads(items[1..], rest, if pending == [] then [c] else []);
          DigitReadsOn(c, more, ds, pending, rest);
          assert Digits(items) == [c] + ds;
        case Other(c) =>
          HexOtherReads(c, more, Waiting(pending), pending != []);
          HexReads(items[1..], rest, pending);
          assert [] + ds == ds;
        case Remark(comment) =>
          HexRemarkReads(comment, more, Waiting(pending), pending != []);
          HexReads(items[1..], rest, pending);
          assert [] + ds == ds;
      }
    }
  }

  lemma DigitReadsOn(c: char, more: string, ds: string, pending: string, rest: string)
    requires HexValue(c) >= 0 && HexDigits(ds) && |pending| <= 1 && HexDigits(pending)
    requires pending == [] ==> HexDigits([c] + ds) && HexPairs(more, HexValue(c), true) == (Pairs([c] + ds), rest)
    requires pending != [] ==> HexDigits([] + ds) && HexPairs(more, 0, false) == (Pairs([] + ds), rest)
    ensures HexDigits(pending + ([c] + ds))
    ensures HexPairs([c] + more, Waiting(pending), pending != []) == (Pairs(pending + ([c] + ds)), rest)
  {
    hide HexPairs, Pairs, HexValue, ToChar;
    HexDigitReads(c, more, Waiting(pending), pending != []);
    if pending == [] {
      assert pending + ([c] + ds) == [c] + ds;
    } else {
      assert pending + ([c] + ds) == [pending[0], c] + ds && [] + ds == ds;
      PairsCons(pending[0], c, ds);
    }
  }

  lemma FewPairs(digits: string)
    requires |digits| <= 1
    ensures Pairs(digits) == []
  {
  }

  lemma ByteIs(a: char, b: char)
    requires HexValue(a) >= 0 && HexValue(b) >= 0
    ensures ToChar(HexValue(a) * 16 + HexValue(b)) == ByteOf(HexValue(a) * 16 + HexValue(b))
  {
  }

  lemma NothingPending()
    ensures HexDigits([])
  {
  }
}
