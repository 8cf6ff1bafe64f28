/** What backslash escapes stand for: cp_process_backslash case by case, and what cp_unquote makes of a
    double-quoted string with escapes in it. */
module Escapes {
  import opened Common
  import opened ConfComments
  import opened Quoting
  import Numeric

  /** The escapes as in C, and the codes of the characters they stand for. */
  const LETTERS := "abfnrtv"
  const CODES := [7, 8, 12, 10, 13, 9, 11]

  /** What a double-quoted string is made of. */
  datatype Unit =
    | Literal(c: char)
    | Letter(k: nat)
    | OctalCode(digits: string)
    | HexCode(digits: string)
    | LineBreak(newline: string)
    | Self(c: char)
    | Binary(items: seq<HexItem>)

  function UnitText(u: Unit): (s: string)
  {
    match u
    case Literal(c) => [c]
    case Letter(k) => ['\\', if k < 7 then LETTERS[k] else 'a']
    case OctalCode(digits) => "\\" + digits
    case HexCode(digits) => "\\x" + digits
    case LineBreak(newline) => "\\" + newline
    case Self(c) => ['\\', c]
    case Binary(items) => "\\<" + HexText(items) + ">"
  }

  predicate OctalDigits(s: string)
  {
    forall i :: 0 <= i < |s| ==> IsOctal(s[i])
  }

  /** A unit in front of rest. */
  predicate UnitOk(u: Unit, rest: string)
  {
    match u
    case Literal(c) => c != '\\' && c != '\"'
    case Letter(k) => k < 7
    case OctalCode(digits) =>
      1 <= |digits| <= 3 && OctalDigits(digits) && (|digits| == 3 || rest == [] || !('0' <= rest[0] <= '7'))
    case HexCode(digits) => HexDigits(digits) && (rest == [] || HexValue(rest[0]) < 0)
    case LineBreak(newline) =>
      newline == "\n" || newline == "\r\n" || (newline == "\r" && (rest == [] || rest[0] != '\n'))
    case Self(c) => c !in LETTERS && c !in "x<\r\n" && !('0' <= c <= '7')
    case Binary(items) => HexOk(items, ">" + rest)
  }

  function UnitMeaning(u: Unit): (s: string)
  {
    match u
    case Literal(c) => [c]
    case Letter(k) => [ByteOf(if k < 7 then CODES[k] else 7)]
    case OctalCode(digits) => [ByteOf(Numeric.Value(digits, 8))]
    case HexCode(digits) => [ByteOf(Numeric.Value(digits, 16))]
    case LineBreak(_) => []
    case Self(c) => [c]
    case Binary(items) => Pairs(Digits(items))
  }

  // ---------------------------------------------------------------- one escape

  lemma {:induction false} OctalReads(done: string, digits: string, rest: string, n: nat)
    requires OctalDigits(digits) && |digits| <= n && (|digits| == n || rest == [] || !('0' <= rest[0] <= '7'))
    requires Numeric.Value(done, 8) >= 0
    ensures Numeric.Value(done + digits, 8) >= 0
    ensures Octal(digits + rest, Numeric.Value(done, 8), n) == (Numeric.Value(done + digits, 8), rest)
    decreases |digits|
  {
    if digits == [] {
      assert digits + rest == rest && done + digits == done;
    } else {
      var d := digits[0];
      assert (digits + rest)[0] == d && (digits + rest)[1..] == digits[1..] + rest;
      assert (done + [d])[..|done|] == done;
      assert Numeric.Value(done + [d], 8) == Numeric.Value(done, 8) * 8 + HexValue(d);
      OctalReads(done + [d], digits[1..], rest, n - 1);
      assert done + [d] + digits[1..] == done + digits;
    }
  }

  lemma {:induction false} HexCodeReads(done: string, digits: string, rest: string)
    requires HexDigits(digits) && (rest == [] || HexValue(rest[0]) < 0) && Numeric.Value(done, 16) >= 0
    ensures Numeric.Value(done + digits, 16) >= 0
    ensures Hex(digits + rest, Numeric.Value(done, 16)) == (Numeric.Value(done + digits, 16), rest)
    decreases |digits|
  {
    hide HexValue;
    if digits == [] {
      assert digits + rest == rest && done + digits == done;
    } else {
      var d := digits[0];
      assert (digits + rest)[0] == d && (digits + rest)[1..] == digits[1..] + rest;
      assert (done + [d])[..|done|] == done;
      assert Numeric.Value(done + [d], 16) == Numeric.Value(done, 16) * 16 + HexValue(d);
      HexCodeReads(done + [d], digits[1..], rest);
      assert done + [d] + digits[1..] == done + digits;
    }
  }

  lemma OctalEscapes(digits: string, rest: string)
    requires UnitOk(OctalCode(digits), rest)
    ensures Escape("\\" + digits + rest) == ([ByteOf(Numeric.Value(digits, 8))], rest)
  {
    hide Octal, Hex, HexPairs, Numeric.Value;
    var t := "\\" + digits + rest;
    assert t[1] == digits[0] && t[1..] == digits + rest;
    NoValue();
    OctalReads([], digits, rest, 3);
    assert [] + digits == digits;
    EscapeOctal(t);
  }

  lemma NoValue()
    ensures Numeric.Value([], 8) == 0 && Numeric.Value([], 16) == 0
  {
  }

  lemma HexEscapes(digits: string, rest: string)
    requires UnitOk(HexCode(digits), rest)
    ensures Escape("\\x" + digits + rest) == ([ByteOf(Numeric.Value(digits, 16))], rest)
  {
    hide Octal, Hex, HexPairs, Numeric.Value, HexValue;
    var t := "\\x" + digits + rest;
    assert t[2..] == digits + rest;
    NoValue();
    HexCodeReads([], digits, rest);
    assert [] + digits == digits;
  }

  lemma AngleEscapes(t: string)
    requires |t| > 1 && t[0] == '\\' && t[1] == '<'
    ensures Escape(t) == HexPairs(t[2..], 0, false)
  {
    hide HexPairs, Octal, Hex;
  }

  lemma BinaryEscapes(items: seq<HexItem>, rest: string)
    requires HexOk(items, ">" + rest)
    ensures Escape("\\<" + HexText(items) + ">" + rest) == (Pairs(Digits(items)), rest)
  {
    hide HexText, HexPairs, Pairs, Digits, HexDigits, HexOk, Escape;
    var t := "\\<" + HexText(items) + ">" + rest;
    NothingPending();
    HexReads(items, rest, []);
    assert [] + Digits(items) == Digits(items);
    assert t[2..] == HexText(items) + (">" + rest);
    AngleEscapes(t);
  }

  lemma ShortEscapes(u: Unit, rest: string)
    requires UnitOk(u, rest) && (u.Letter? || u.LineBreak? || u.Self?)
    ensures Escape(UnitText(u) + rest) == (UnitMeaning(u), rest)
  {
    hide Octal, Hex, HexPairs;
    var t := UnitText(u) + rest;
    match u {
      case Letter(k) =>
        assert t[1] == LETTERS[k] && t[2..] == rest;
      case LineBreak(newline) =>
        assert t[1] == newline[0] && t[2..] == newline[1..] + rest;
        assert newline == "\r\n" ==> t[2..][1..] == rest;
        assert |newline| == 1 ==> t[2..] == rest;
      case Self(c) =>
        assert t[1] == c && t[2..] == rest;
        assert forall i :: 0 <= i < |LETTERS| ==> c != LETTERS[i];
    }
  }

  /** cp_process_backslash, for every kind of escape. */
  lemma EscapeExpands(u: Unit, rest: string)
    requires UnitOk(u, rest) && !u.Literal?
    ensures UnitText(u) + rest != [] && (UnitText(u) + rest)[0] == '\\'
    ensures Escape(UnitText(u) + rest) == (UnitMeaning(u), rest)
  {
    hide Escape, Numeric.Value, HexText, HexOk, Pairs, Digits, HexDigits, OctalDigits;
    match u
    case Letter(_) => ShortEscapes(u, rest);
    case LineBreak(_) => ShortEscapes(u, rest);
    case Self(_) => ShortEscapes(u, rest);
    case OctalCode(digits) => OctalEscapes(digits, rest);
    case HexCode(digits) => HexEscapes(digits, rest);
    case Binary(items) => BinaryEscapes(items, rest);
  }

  // ---------------------------------------------------------------- skipping and unquoting

  lemma {:induction false} PlainsSkip(s: string, rest: string)
    requires forall i :: 0 <= i < |s| ==> s[i] != '\\' && s[i] != '\"'
    ensures DoubleLength(s + rest) == |s| + DoubleLength(rest)
  {
    hide DoubleLength;
    if s == [] {
      assert s + rest == rest;
    } else {
      assert s + rest == [s[0]] + (s[1..] + rest);
      PlainSkips(s[0], s[1..] + rest);
      PlainsSkip(s[1..], rest);
    }
  }

  /** A backslash, another character, and plain ones behind it. */
  lemma CodeSkips(c: char, s: string, rest: string)
    requires c != '<' && c != '\r' && forall i :: 0 <= i < |s| ==> s[i] != '\\' && s[i] != '\"'
    ensures DoubleLength("\\" + [c] + s + rest) == 2 + |s| + DoubleLength(rest)
  {
    hide DoubleLength;
    assert "\\" + [c] + s + rest == ['\\', c] + (s + rest);
    PairSkips(c, s + rest);
    PlainsSkip(s, rest);
  }

  lemma BreakSkips(newline: string, rest: string)
    requires UnitOk(LineBreak(newline), rest)
    ensures DoubleLength("\\" + newline + rest) == 1 + |newline| + DoubleLength(rest)
  {
    var t := "\\" + newline + rest;
    assert t[1] == newline[0];
    assert |t| > 2 ==> t[2] == if |newline| == 2 then '\n' else rest[0];
    assert BackslashLength(t) == 1 + |newline|;
    assert Drop(t, 1 + |newline|) == rest;
  }

  lemma BinarySkips(items: seq<HexItem>, rest: string)
    requires HexOk(items, ">" + rest)
    ensures DoubleLength("\\<" + HexText(items) + ">" + rest) == 3 + |HexText(items)| + DoubleLength(rest)
  {
    hide HexText, HexLength, HexOk;
    var t := "\\<" + HexText(items) + ">" + rest;
    assert t[2..] == HexText(items) + (">" + rest);
    HexSkips(items, rest);
    assert BackslashLength(t) == 3 + |HexText(items)|;
    assert Drop(t, 3 + |HexText(items)|) == rest;
  }

  lemma CodeDigits(s: string)
    ensures OctalDigits(s) || HexDigits(s) ==> forall i :: 0 <= i < |s| ==> s[i] != '\\' && s[i] != '\"' && s[i] != '<' && s[i] != '\r'
  {
  }

  lemma OctalSkips(digits: string, rest: string)
    requires digits != [] && OctalDigits(digits)
    ensures DoubleLength("\\" + digits + rest) == 1 + |digits| + DoubleLength(rest)
  {
    hide DoubleLength, OctalDigits;
    CodeDigits(digits);
    var first, more := digits[0], digits[1..];
    assert digits == [first] + more;
    assert "\\" + digits + rest == "\\" + [first] + more + rest;
    CodeSkips(first, more, rest);
  }

  lemma HexCodeSkips(digits: string, rest: string)
    requires HexDigits(digits)
    ensures DoubleLength("\\x" + digits + rest) == 2 + |digits| + DoubleLength(rest)
  {
    hide DoubleLength, HexDigits;
    CodeDigits(digits);
    assert "\\x" == "\\" + ['x'];
    CodeSkips('x', digits, rest);
  }

  lemma UnitSkips(u: Unit, rest: string)
    requires UnitOk(u, rest)
    ensures DoubleLength(UnitText(u) + rest) == |UnitText(u)| + DoubleLength(rest)
  {
    hide DoubleLength, HexText, HexOk, HexDigits, OctalDigits, HexValue;
    match u {
      case Literal(c) =>
        PlainSkips(c, rest);
      case Letter(k) =>
        PairSkips(LETTERS[k], rest);
      case Self(c) =>
        PairSkips(c, rest);
      case OctalCode(digits) =>
        OctalSkips(digits, rest);
      case HexCode(digits) =>
        HexCodeSkips(digits, rest);
      case LineBreak(newline) =>
        BreakSkips(newline, rest);
      case Binary(items) =>
        BinarySkips(items, rest);
    }
  }

  function UnitsText(units: seq<Unit>): (s: string)
  {
    if units == [] then [] else UnitText(units[0]) + UnitsText(units[1..])
  }

  predicate UnitsOk(units: seq<Unit>, rest: string)
  {
    units != [] ==> UnitOk(units[0], UnitsText(units[1..]) + rest) && UnitsOk(units[1..], rest)
  }

  function UnitsMeaning(units: seq<Unit>): (s: string)
  {
    if units == [] then [] else UnitMeaning(units[0]) + UnitsMeaning(units[1..])
  }

  lemma UnitsCons(units: seq<Unit>, rest: string)
    requires units != []
    ensures UnitsText(units) + rest == UnitText(units[0]) + (UnitsText(units[1..]) + rest)
  {
    hide UnitText;
    Together(UnitText(units[0]), UnitsText(units[1..]), rest);
  }

  lemma {:induction false} UnitsSkip(units: seq<Unit>, rest: string)
    requires UnitsOk(units, "\"" + rest)
    ensures DoubleLength(UnitsText(units) + ("\"" + rest)) == |UnitsText(units)| + 1
    decreases |units|
  {
    hide UnitText, UnitOk;
    if units == [] {
      assert UnitsText(units) + ("\"" + rest) == "\"" + rest;
    } else {
      hide DoubleLength;
      UnitsCons(units, "\"" + rest);
      UnitSkips(units[0], UnitsText(units[1..]) + ("\"" + rest));
      UnitsSkip(units[1..], rest);
    }
  }

  lemma UnitUnquotes(u: Unit, rest: string)
    requires UnitOk(u, rest)
    ensures Unquoted(UnitText(u) + rest, Double) == UnitMeaning(u) + Unquoted(rest, Double)
  {
    var t := UnitText(u) + rest;
    if u.Literal? {
      assert t[1..] == rest;
    } else {
      hide Escape, UnitMeaning;
      EscapeExpands(u, rest);
      if |t| == 1 {
        hide UnitOk;
        LongerThanOne(u, rest);
      }
    }
  }

  lemma LongerThanOne(u: Unit, rest: string)
    requires UnitOk(u, rest) && !u.Literal?
    ensures |UnitText(u)| > 1
  {
  }

  /** A double-quoted string stands for what its units stand for. */
  lemma {:induction false} UnitsUnquote(units: seq<Unit>, rest: string)
    requires UnitsOk(units, "\"" + rest)
    ensures Unquoted(UnitsText(units) + ("\"" + rest), Double) == UnitsMeaning(units) + Unquoted(rest, Bare)
    decreases |units|
  {
    hide UnitText, UnitOk, UnitMeaning, Unquoted;
    if units == [] {
      assert UnitsText(units) + ("\"" + rest) == "\"" + rest;
      ClosingQuote(rest);
      assert [] + Unquoted(rest, Bare) == Unquoted(rest, Bare);
    } else {
      UnitsCons(units, "\"" + rest);
      UnitUnquotes(units[0], UnitsText(units[1..]) + ("\"" + rest));
      UnitsUnquote(units[1..], rest);
      Together(UnitMeaning(units[0]), UnitsMeaning(units[1..]), Unquoted(rest, Bare));
    }
  }

  lemma {:induction false} UnendedUnitsSkip(units: seq<Unit>)
    requires UnitsOk(units, [])
    ensures DoubleLength(UnitsText(units)) == |UnitsText(units)|
    decreases |units|
  {
    hide UnitText, UnitOk;
    if units != [] {
      var more := UnitsText(units[1..]);
      assert more + [] == more;
      UnendedUnitsSkip(units[1..]);
      UnitSkips(units[0], more);
    }
  }

  /** A string that is not closed ends with the text. */
  lemma {:induction false} UnendedUnitsUnquote(units: seq<Unit>)
    requires UnitsOk(units, [])
    ensures Unquoted(UnitsText(units), Double) == UnitsMeaning(units)
    decreases |units|
  {
    hide UnitText, UnitOk, UnitMeaning;
    if units != [] {
      hide Unquoted;
      var more := UnitsText(units[1..]);
      assert more + [] == more;
      UnendedUnitsUnquote(units[1..]);
      UnitUnquotes(units[0], more);
    }
  }
}
