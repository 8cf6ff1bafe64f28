/** ArchiveElement::unparse and ArchiveElement::parse: members of an ar archive to text and back. */
module Archive {
  import opened Common
  import Numeric

  datatype Element = Element(name: string, date: int, uid: int, gid: int, mode: int, data: string)

  const MAGIC := "!<arch>\n"
  const INT_MAX := 0x7FFF_FFFF

  // ---------------------------------------------------------------- numerals

  /** printf's %u (base 10) and %o (base 8). */
  function Numeral(n: nat, base: nat): (s: string)
    requires base in {8, 10}
    ensures s != []
  {
    Numeric.NumeralIsCanonical(n, base, false);
    Numeric.Numeral(n, base, false)
  }

  function DigitChar(d: nat): (c: char)
    requires d < 10
  {
    Numeric.DigitChar(d, false)
  }

  predicate IsDigit(c: char, base: nat)
  {
    '0' as int <= c as int < '0' as int + base
  }

  /** How much of s is digits, with single underscores between them; last is how much was up to the
      last digit. */
  function Span(s: string, i: nat, last: nat, base: nat): (n: nat)
    requires i <= |s| && last <= i
    ensures n <= |s|
    decreases |s| - i
  {
    if i < |s| && s[i] == '_' && last == i && i > 0 then Span(s, i + 1, last, base)
    else if i < |s| && IsDigit(s[i], base) then Span(s, i + 1, i + 1, base)
    else last
  }

  function Value(s: string, base: nat, v: nat): (n: nat)
  {
    if s == [] then v
    else if IsDigit(s[0], base) then Value(s[1..], base, v * base + (s[0] as int - '0' as int))
    else Value(s[1..], base, v)
  }

  /** cp_integer into an int, in base 8 or 10: how much of s it takes, and the value, saturated. */
  function CpInteger(s: string, base: nat): (r: (nat, int))
    ensures r.0 <= |s|
  {
    var sign := if s != [] && (s[0] == '-' || s[0] == '+') then 1 else 0;
    var n := Span(s[sign..], 0, 0, base);
    if n == 0 then (0, 0)
    else
      var v: int := Value(s[sign..sign + n], base, 0);
      var w: int := if s[0] == '-' then -v else v;
      (sign + n, if w < -INT_MAX - 1 then -INT_MAX - 1 else if w > INT_MAX then INT_MAX else w)
  }

  /** read_uint: -1 unless the column starts with a number that fills it or is followed by space. */
  function ReadUint(s: string, base: nat): (x: int)
  {
    var (n, x) := CpInteger(s, base);
    if n == 0 || (n < |s| && !IsSpace(s[n])) then -1 else x
  }

  // ---------------------------------------------------------------- unparse

  /** s up to the first c. */
  function UpTo(s: string, c: char): (t: string)
    ensures c !in t && t <= s
  {
    if s == [] || s[0] == c then [] else [s[0]] + UpTo(s[1..], c)
  }

  /** s filled up with spaces to width n. */
  function Padded(s: string, n: nat): (t: string)
    ensures |t| == if |s| < n then n else |s|
  {
    if |s| < n then s + seq(n - |s|, _ => ' ') else s
  }

  predicate HasSpace(s: string)
  {
    exists i :: 0 <= i < |s| && IsSpace(s[i])
  }

  /** Whether a name, already cut at a slash, is written in front of the data. */
  predicate IsLong(name: string)
  {
    HasSpace(name) || |name| > 14
  }

  /** The name column; a short name goes through sprintf, which stops at a null character. */
  function NameColumn(name: string): (s: string)
  {
    if IsLong(name) then "#1/" + Padded(Numeral(|name|, 10), 13)
    else Padded(UpTo(name, '\0'), 16)
  }

  function Contents(e: Element): (s: string)
  {
    var name := UpTo(e.name, '/');
    if IsLong(name) then name + e.data else e.data
  }

  predicate Live(e: Element)
  {
    e.name != []
  }

  predicate IsInt(v: int)
  {
    -INT_MAX - 1 <= v <= INT_MAX
  }

  /** What the source's fields can hold. */
  predicate Ints(e: Element)
  {
    IsInt(e.date) && IsInt(e.uid) && IsInt(e.gid) && IsInt(e.mode) && |Contents(e)| <= INT_MAX
  }

  /** Conversion of an int to an unsigned. */
  function Unsigned(v: int): (u: nat)
    requires IsInt(v)
    ensures u <= 2 * INT_MAX + 1
  {
    if v < 0 then v + 2 * (INT_MAX + 1) else v
  }

  /** The numbers of a header, each filled up to the width of its column. */
  function Numbers(e: Element, size: nat): (s: string)
    requires Ints(e)
    ensures |s| >= 42
  {
    Padded(Numeral(Unsigned(e.date), 10), 12) + Padded(Numeral(Unsigned(e.uid), 10), 6) +
    Padded(Numeral(Unsigned(e.gid), 10), 6) + Padded(Numeral(Unsigned(e.mode), 8), 8) + Padded(Numeral(size, 10), 10)
  }

  /** What is left of the numbers and the magic behind them: there is room for 44 characters, and what
      sprintf writes beyond is overwritten. */
  function Columns(e: Element, size: nat): (s: string)
    requires Ints(e)
    ensures |s| == 44
  {
    (Numbers(e, size) + "`\n")[..44]
  }

  function Member(e: Element): (s: string)
    requires Ints(e)
  {
    var contents := Contents(e);
    NameColumn(UpTo(e.name, '/')) + Columns(e, |contents|) + contents + (if |contents| % 2 == 1 then "\n" else "")
  }

  predicate AllInts(ar: seq<Element>)
  {
    forall i {:trigger ar[i]} :: 0 <= i < |ar| ==> Ints(ar[i])
  }

  function Members(ar: seq<Element>): (s: string)
    requires AllInts(ar)
  {
    if ar == [] then []
    else (if Live(ar[0]) then Member(ar[0]) else "") + Members(ar[1..])
  }

  function Unparse(ar: seq<Element>): (s: string)
    requires AllInts(ar)
  {
    MAGIC + Members(ar)
  }

  // ---------------------------------------------------------------- parse

  /** What parse leaves: the members read, and whether it succeeded. */
  datatype Outcome = Outcome(ar: seq<Element>, ok: bool)

  predicate IsLongNames(s: string)
    requires |s| >= 60
  {
    s[0] == '/' && s[1] == '/' && IsSpace(s[2])
  }

  /** A name in the long name section. */
  function LongName(names: string, offset: int): (name: string)
  {
    if names == [] || offset < 0 || offset >= |names| then [] else UpToSpace(names[offset..])
  }

  /** s up to a slash or white space. */
  function UpToSpace(s: string): (t: string)
    ensures t <= s
  {
    if s == [] || s[0] == '/' || IsSpace(s[0]) then [] else [s[0]] + UpToSpace(s[1..])
  }

  /** The name of the member whose header starts s, and how much of its data is a name. */
  function HeaderName(s: string, names: string): (r: (string, int))
    requires |s| >= 60
  {
    if s[0] == '/' && IsDigit(s[1], 10) then (LongName(names, ReadUint(s[1..16], 10)), 0)
    else if s[0] == '#' && s[1] == '1' && s[2] == '/' && IsDigit(s[3], 10) then ([], ReadUint(s[3..16], 10))
    else (UpToSpace(s[..16]), 0)
  }

  /** The member at the start of s, whose contents are size long. */
  function ReadElement(s: string, names: string, size: nat): (e: Element)
    requires 60 + size <= |s|
    requires HeaderName(s, names).1 <= size
  {
    var (name, l) := HeaderName(s, names);
    var contents := s[60..60 + size];
    Element(
      if l > 0 then contents[..l] else name,
      ReadUint(s[16..28], 10), ReadUint(s[28..34], 10), ReadUint(s[34..40], 10), ReadUint(s[40..48], 8),
      if l > 0 then contents[l..] else contents)
  }

  function Sections(s: string, names: string, ar: seq<Element>): (r: Outcome)
    decreases |s|
  {
    if |s| < 60 then Outcome(ar, s == [])
    else if s[58] != '`' || s[59] != '\n' then Outcome(ar, false)
    else
      var size := ReadUint(s[48..58], 10);
      if size < 0 || 60 + size > |s| then Outcome(ar, false)
      else if !IsLongNames(s) && HeaderName(s, names).1 > size then Outcome(ar, false)
      else
        var names' := if IsLongNames(s) then s[60..60 + size] else names;
        var ar' := if IsLongNames(s) then ar else ar + [ReadElement(s, names, size)];
        if size % 2 == 0 then Sections(s[60 + size..], names', ar')
        else if 60 + size == |s| then Outcome(ar', false)
        else Sections(s[60 + size + 1..], names', ar')
  }

  function Parse(str: string): (r: Outcome)
  {
    if |str| <= 8 || str[..8] != MAGIC then Outcome([], false) else Sections(str[8..], [], [])
  }

  // ---------------------------------------------------------------- numbers come back

  function Power(base: nat, n: nat): (p: nat)
  {
    if n == 0 then 1 else base * Power(base, n - 1)
  }

  lemma {:induction false} NumeralIsShort(n: nat, base: nat, w: nat)
    requires base in {8, 10} && w >= 1 && n < Power(base, w)
    ensures |Numeral(n, base)| <= w
    decreases w
  {
    hide Numeral;
    NumeralUnfolds(n, base);
    if n >= base {
      assert w > 1;
      Quotient(n, base, Power(base, w - 1));
      NumeralIsShort(n / base, base, w - 1);
    }
  }

  lemma {:induction false} NumeralIsLong(n: nat, base: nat, w: nat)
    requires base in {8, 10} && n >= Power(base, w)
    ensures |Numeral(n, base)| > w
    decreases w
  {
    hide Numeral;
    NumeralUnfolds(n, base);
    if w > 0 {
      PowerIsPositive(base, w - 1);
      assert n >= base;
      QuotientAtLeast(n, base, Power(base, w - 1));
      NumeralIsLong(n / base, base, w - 1);
    }
  }

  lemma {:induction false} PowerIsPositive(base: nat, n: nat)
    requires base > 0
    ensures Power(base, n) >= 1
  {
    if n > 0 {
      PowerIsPositive(base, n - 1);
    }
  }

  lemma QuotientAtLeast(n: nat, base: nat, p: nat)
    requires base in {8, 10} && n >= base * p
    ensures n / base >= p
  {
  }

  lemma Quotient(n: nat, base: nat, p: nat)
    requires base > 0 && n < base * p
    ensures n / base < p
  {
    var q := n / base;
    assert base * q <= n;
    assert base * (p - q) > 0;
  }

  lemma NumeralUnfolds(n: nat, base: nat)
    requires base in {8, 10}
    ensures Numeral(n, base)
            == if n < base then [DigitChar(n)] else Numeral(n / base, base) + [DigitChar(n % base)]
    ensures n == n / base * base + n % base && (n >= base ==> n / base < n)
  {
    Numeric.NumeralUnfolds(n, base, false);
  }

  lemma {:induction false} NumeralIsDigits(n: nat, base: nat)
    requires base in {8, 10}
    ensures forall i :: 0 <= i < |Numeral(n, base)| ==> IsDigit(Numeral(n, base)[i], base)
  {
    hide DigitChar, IsDigit, Numeral;
    ValueOfDigit(n % base, base);
    NumeralUnfolds(n, base);
    if n >= base {
      NumeralIsDigits(n / base, base);
    }
  }

  lemma {:induction false} ValueAppend(s: string, c: char, base: nat, v: nat)
    requires IsDigit(c, base)
    ensures Value(s + [c], base, v) == Value(s, base, v) * base + (c as int - '0' as int)
    decreases |s|
  {
    if s == [] {
      assert [c][1..] == [];
    } else {
      assert (s + [c])[1..] == s[1..] + [c];
    }
    if s != [] {
      ValueAppend(s[1..], c, base, if IsDigit(s[0], base) then v * base + (s[0] as int - '0' as int) else v);
    }
  }

  lemma ValueOfDigit(d: nat, base: nat)
    requires d < base <= 10
    ensures IsDigit(DigitChar(d), base) && DigitChar(d) as int - '0' as int == d
    ensures Value([DigitChar(d)], base, 0) == d
  {
    assert [DigitChar(d)][1..] == [];
    assert Value([DigitChar(d)], base, 0) == Value([], base, d);
  }

  lemma {:induction false} ValueOfNumeral(n: nat, base: nat)
    requires base in {8, 10}
    ensures Value(Numeral(n, base), base, 0) == n
  {
    hide Value, DigitChar, IsDigit, Numeral;
    NumeralUnfolds(n, base);
    if n < base {
      ValueOfDigit(n, base);
    } else {
      var q, d := n / base, n % base;
      ValueOfDigit(d, base);
      ValueOfNumeral(q, base);
      ValueAppend(Numeral(q, base), DigitChar(d), base, 0);
    }
  }

  lemma {:induction false} SpanOfDigits(s: string, i: nat, n: nat, base: nat)
    requires i <= n <= |s| && base in {8, 10} && (n == |s| || s[n] == ' ')
    requires forall k :: 0 <= k < n ==> IsDigit(s[k], base)
    ensures Span(s, i, i, base) == n
    decreases n - i
  {
    if i < n {
      SpanOfDigits(s, i + 1, n, base);
    }
  }

  /** A padded number reads back, cut down to what an int can hold. */
  lemma ReadPadded(n: nat, base: nat, w: nat)
    requires base in {8, 10} && |Numeral(n, base)| <= w
    ensures ReadUint(Padded(Numeral(n, base), w), base) == if n <= INT_MAX then n else INT_MAX
  {
    hide Numeral, Span, Value;
    var d := Numeral(n, base);
    var s := Padded(d, w);
    NumeralIsDigits(n, base);
    assert s[0] == d[0];
    assert s[0..] == s;
    assert forall k :: 0 <= k < |d| ==> s[k] == d[k];
    SpanOfDigits(s, 0, |d|, base);
    assert s[0..|d|] == d;
    ValueOfNumeral(n, base);
  }

  // ---------------------------------------------------------------- names come back

  /** What is left of a name: up to a slash, and if that is short, up to a null character. */
  function KeptName(name: string): (t: string)
  {
    var t := UpTo(name, '/');
    if IsLong(t) then t else UpTo(t, '\0')
  }

  lemma {:induction false} UpToAll(s: string, c: char)
    requires c !in s
    ensures UpTo(s, c) == s
  {
    if s != [] {
      UpToAll(s[1..], c);
    }
  }

  lemma GoodNameIsKept(name: string)
    requires '/' !in name && '\0' !in name
    ensures KeptName(name) == name
  {
    hide UpTo;
    UpToAll(name, '/');
    UpToAll(name, '\0');
  }

  lemma {:induction false} UpToSpaceIs(s: string, t: string)
    requires t < s && s[|t|] == ' ' && forall i :: 0 <= i < |t| ==> t[i] != '/' && !IsSpace(t[i])
    ensures UpToSpace(s) == t
    decreases |t|
  {
    hide IsSpace;
    SpaceIsSpace();
    if t != [] {
      assert s[0] == t[0];
      UpToSpaceIs(s[1..], t[1..]);
    }
  }

  lemma SpaceIsSpace()
    ensures IsSpace(' ') && !IsSpace('/')
  {
  }

  lemma ShortNameReads(s: string, name: string)
    requires |s| >= 60 && '/' !in name && !IsLong(name) && s[..16] == NameColumn(name)
    ensures HeaderName(s, []) == (UpTo(name, '\0'), 0) && !IsLongNames(s)
  {
    hide UpTo, UpToSpace, IsSpace, ReadUint, LongName;
    var t, c := UpTo(name, '\0'), s[..16];
    assert forall i :: 0 <= i < |t| ==> t[i] == name[i];
    UpToSpaceIs(c, t);
    assert forall i :: 0 <= i < 16 ==> s[i] == c[i] && c[i] != '/';
  }

  lemma LongNameReads(s: string, name: string)
    requires |s| >= 60 && IsLong(name) && |name| <= INT_MAX && s[..16] == NameColumn(name)
    ensures HeaderName(s, []) == ([], |name|) && |name| > 0 && !IsLongNames(s)
  {
    hide IsSpace, ReadUint, UpToSpace;
    var d, c := Numeral(|name|, 10), s[..16];
    NumeralOfInt(|name|);
    ReadPadded(|name|, 10, 13);
    NumeralIsDigits(|name|, 10);
    assert forall i :: 0 <= i < 16 ==> s[i] == c[i];
    assert s[3..16] == c[3..] == Padded(d, 13);
    assert s[3] == c[3] == Padded(d, 13)[0] == d[0];
  }

  lemma NumeralOfInt(n: nat)
    requires n <= 2 * INT_MAX + 1
    ensures |Numeral(n, 10)| <= 10
  {
    TenDigits();
    NumeralIsShort(n, 10, 10);
  }

  lemma TenDigits()
    ensures Power(10, 6) == 1_000_000 && Power(10, 10) == 10_000_000_000 && Power(8, 8) == 0x100_0000
  {
    assert Power(10, 3) == 1000;
    assert Power(10, 6) == 10 * (10 * (10 * Power(10, 3)));
    assert Power(10, 10) == 10 * (10 * (10 * (10 * Power(10, 6))));
    assert Power(8, 4) == 8 * (8 * (8 * (8 * Power(8, 0))));
    assert Power(8, 8) == 8 * (8 * (8 * (8 * Power(8, 4))));
  }

  // ---------------------------------------------------------------- a member comes back

  /** The numbers do not take more than their columns; a date never does. */
  predicate FitsColumns(e: Element)
  {
    0 <= e.uid < 1_000_000 && 0 <= e.gid < 1_000_000 && 0 <= e.mode < 0x100_0000
  }

  /** The numbers fit their columns, and come back as they were. */
  predicate Fits(e: Element)
  {
    FitsColumns(e) && e.date >= 0
  }

  lemma WidthsFit(e: Element, size: nat)
    requires Ints(e) && FitsColumns(e) && size <= INT_MAX
    ensures |Numeral(Unsigned(e.date), 10)| <= 12 && |Numeral(e.uid, 10)| <= 6 && |Numeral(e.gid, 10)| <= 6
    ensures |Numeral(e.mode, 8)| <= 8 && |Numeral(size, 10)| <= 10
  {
    hide Numeral;
    NumeralOfInt(Unsigned(e.date));
    NumeralOfInt(size);
    TenDigits();
    NumeralIsShort(e.uid, 10, 6);
    NumeralIsShort(e.gid, 10, 6);
    NumeralIsShort(e.mode, 8, 8);
  }

  /** The columns of a header that fit. */
  lemma ColumnsAre(e: Element, size: nat)
    requires Ints(e) && FitsColumns(e) && size <= INT_MAX
    ensures var c := Columns(e, size);
            && c[0..12] == Padded(Numeral(Unsigned(e.date), 10), 12) && c[12..18] == Padded(Numeral(e.uid, 10), 6)
            && c[18..24] == Padded(Numeral(e.gid, 10), 6) && c[24..32] == Padded(Numeral(e.mode, 8), 8)
            && c[32..42] == Padded(Numeral(size, 10), 10) && c[42] == '`' && c[43] == '\n'
  {
    hide Numeral, Padded;
    WidthsFit(e, size);
    var n := Numbers(e, size);
    assert |n| == 42;
    assert Columns(e, size) == n + "`\n";
  }

  /** What a date reads back as. */
  function ReadDate(date: int): (d: int)
  {
    if date < 0 then INT_MAX else date
  }

  /** The numbers in the columns of a header read back. */
  lemma ColumnsRead(e: Element, size: nat)
    requires Ints(e) && FitsColumns(e) && size <= INT_MAX
    ensures var c := Columns(e, size);
            && ReadUint(c[0..12], 10) == ReadDate(e.date) && ReadUint(c[12..18], 10) == e.uid
            && ReadUint(c[18..24], 10) == e.gid && ReadUint(c[24..32], 8) == e.mode && ReadUint(c[32..42], 10) == size
  {
    hide Numeral, Padded, ReadUint, Columns;
    WidthsFit(e, size);
    ColumnsAre(e, size);
    ReadPadded(Unsigned(e.date), 10, 12);
    ReadPadded(e.uid, 10, 6);
    ReadPadded(e.gid, 10, 6);
    ReadPadded(e.mode, 8, 8);
    ReadPadded(size, 10, 10);
  }

  predicate Plain(s: string)
  {
    forall i :: 0 <= i < |s| ==> s[i] != '`'
  }

  lemma PaddedIsPlain(n: nat, base: nat, w: nat)
    requires base in {8, 10}
    ensures Plain(Padded(Numeral(n, base), w))
  {
    hide Numeral;
    NumeralIsDigits(n, base);
  }

  /** A number too wide for its column moves the magic on, so that it is not found. */
  lemma ColumnsBreak(e: Element, size: nat)
    requires Ints(e) && !FitsColumns(e)
    ensures Columns(e, size)[42] != '`'
  {
    hide Numeral, Padded;
    WidthsBreak(e);
    PaddedIsPlain(Unsigned(e.date), 10, 12);
    PaddedIsPlain(Unsigned(e.uid), 10, 6);
    PaddedIsPlain(Unsigned(e.gid), 10, 6);
    PaddedIsPlain(Unsigned(e.mode), 8, 8);
    PaddedIsPlain(size, 10, 10);
    assert |Numbers(e, size)| > 42;
    assert Plain(Numbers(e, size));
  }

  lemma WidthsBreak(e: Element)
    requires Ints(e) && !FitsColumns(e)
    ensures |Numeral(Unsigned(e.uid), 10)| > 6 || |Numeral(Unsigned(e.gid), 10)| > 6
            || |Numeral(Unsigned(e.mode), 8)| > 8
  {
    hide Numeral;
    TenDigits();
    if !(0 <= e.uid < 1_000_000) {
      NumeralIsLong(Unsigned(e.uid), 10, 6);
    } else if !(0 <= e.gid < 1_000_000) {
      NumeralIsLong(Unsigned(e.gid), 10, 6);
    } else {
      NumeralIsLong(Unsigned(e.mode), 8, 8);
    }
  }

  lemma NameColumnIs16(name: string)
    requires |name| <= INT_MAX
    ensures |NameColumn(name)| == 16
  {
    hide Numeral;
    NumeralOfInt(|name|);
  }

  lemma NameIsShorter(e: Element)
    requires Ints(e)
    ensures |UpTo(e.name, '/')| <= INT_MAX
  {
  }

  /** Where the columns of a written member are, in front of anything. */
  lemma HeaderIs(e: Element, rest: string)
    requires Ints(e)
    ensures var contents, s := Contents(e), Member(e) + rest;
            && |s| >= 60 + |contents| && s[60..60 + |contents|] == contents
            && s[..16] == NameColumn(UpTo(e.name, '/')) && s[16..60] == Columns(e, |contents|)
  {
    hide Columns, NameColumn, Contents, UpTo;
    var contents, s := Contents(e), Member(e) + rest;
    var name, c := NameColumn(UpTo(e.name, '/')), Columns(e, |contents|);
    NameIsShorter(e);
    NameColumnIs16(UpTo(e.name, '/'));
    var pad := if |contents| % 2 == 1 then "\n" else "";
    assert s == name + c + contents + (pad + rest);
    Placed(s, name, c, contents, pad + rest);
  }

  lemma HeaderReads(e: Element, rest: string)
    requires Ints(e) && FitsColumns(e)
    ensures var contents, s := Contents(e), Member(e) + rest;
            && |s| >= 60 + |contents| && s[58] == '`' && s[59] == '\n' && s[60..60 + |contents|] == contents
            && s[..16] == NameColumn(UpTo(e.name, '/'))
            && ReadUint(s[16..28], 10) == ReadDate(e.date) && ReadUint(s[28..34], 10) == e.uid
            && ReadUint(s[34..40], 10) == e.gid && ReadUint(s[40..48], 8) == e.mode
            && ReadUint(s[48..58], 10) == |contents|
  {
    hide ReadUint, Columns, NameColumn, Contents, UpTo, Member;
    var contents, s := Contents(e), Member(e) + rest;
    var c := Columns(e, |contents|);
    HeaderIs(e, rest);
    ColumnsAre(e, |contents|);
    ColumnsRead(e, |contents|);
    Inside(s, c, 0, 12);
    Inside(s, c, 12, 18);
    Inside(s, c, 18, 24);
    Inside(s, c, 24, 32);
    Inside(s, c, 32, 42);
    assert s[58] == c[42] && s[59] == c[43];
  }

  /** Where the parts of a member are. */
  lemma Placed(s: string, name: string, columns: string, contents: string, rest: string)
    requires |name| == 16 && |columns| == 44 && s == name + columns + contents + rest
    ensures |s| >= 60 + |contents| && s[..16] == name && s[16..60] == columns && s[60..60 + |contents|] == contents
  {
    assert s[..16] == name;
    assert s[16..60] == columns;
    assert s[60..60 + |contents|] == contents;
  }

  lemma Inside(s: string, c: string, a: nat, b: nat)
    requires |s| >= 60 && s[16..60] == c && a <= b <= 44
    ensures s[16 + a..16 + b] == c[a..b]
  {
    forall i | 0 <= i < b - a
      ensures s[16 + a..16 + b][i] == c[a..b][i]
    {
      assert s[16..60][a + i] == s[16 + a + i];
    }
  }

  /** A member as it is written, as far as the archive format has room for it. */
  function Kept(e: Element): (e': Element)
  {
    e.(name := KeptName(e.name))
  }

  /** A member as it is read back. */
  function Back(e: Element): (e': Element)
  {
    Kept(e).(date := ReadDate(e.date))
  }

  lemma MemberReads(e: Element, rest: string, ar: seq<Element>)
    requires Ints(e)
    ensures Sections(Member(e) + rest, [], ar)
            == if FitsColumns(e) then Sections(rest, [], ar + [Back(e)]) else Outcome(ar, false)
  {
    hide ReadUint, NameColumn, Columns, UpTo, IsSpace, LongName, UpToSpace, HasSpace, IsLongNames;
    var contents, s, t := Contents(e), Member(e) + rest, UpTo(e.name, '/');
    if FitsColumns(e) {
      HeaderReads(e, rest);
      HeaderElement(e, s);
      NameIsShorter(e);
      NameColumnIs16(t);
      MemberEnds(e, rest);
    } else {
      HeaderIs(e, rest);
      ColumnsBreak(e, |contents|);
      assert s[58] == s[16..60][42];
    }
  }

  /** The element read from a header that e was written to. */
  lemma HeaderElement(e: Element, s: string)
    requires Ints(e)
    requires var contents := Contents(e);
             && |s| >= 60 + |contents| && s[60..60 + |contents|] == contents
             && s[..16] == NameColumn(UpTo(e.name, '/'))
             && ReadUint(s[16..28], 10) == ReadDate(e.date) && ReadUint(s[28..34], 10) == e.uid
             && ReadUint(s[34..40], 10) == e.gid && ReadUint(s[40..48], 8) == e.mode
    ensures !IsLongNames(s) && HeaderName(s, []).1 <= |Contents(e)|
    ensures ReadElement(s, [], |Contents(e)|) == Back(e)
  {
    var contents, t := Contents(e), UpTo(e.name, '/');
    NameIsShorter(e);
    if IsLong(t) {
      LongNameReads(s, t);
    } else {
      ShortNameReads(s, t);
    }
    hide ReadUint, NameColumn, UpTo, IsSpace, HeaderName, HasSpace;
  }

  lemma MemberEnds(e: Element, rest: string)
    requires Ints(e) && |NameColumn(UpTo(e.name, '/'))| == 16
    ensures var n, s := 60 + |Contents(e)|, Member(e) + rest;
            if n % 2 == 0 then n <= |s| && s[n..] == rest else n + 1 <= |s| && s[n + 1..] == rest
  {
    hide NameColumn, Columns, Contents;
  }

  // ---------------------------------------------------------------- archives come back

  /** The live members, as they are kept. */
  function KeptAll(ar: seq<Element>): (r: seq<Element>)
  {
    if ar == [] then [] else (if Live(ar[0]) then [Kept(ar[0])] else []) + KeptAll(ar[1..])
  }

  /** The live members as they are read back, up to one whose numbers do not fit. */
  function BackAll(ar: seq<Element>): (r: seq<Element>)
  {
    if ar == [] then []
    else if !Live(ar[0]) then BackAll(ar[1..])
    else if !FitsColumns(ar[0]) then []
    else [Back(ar[0])] + BackAll(ar[1..])
  }

  predicate AllFitColumns(ar: seq<Element>)
  {
    forall i {:trigger ar[i]} :: 0 <= i < |ar| && Live(ar[i]) ==> FitsColumns(ar[i])
  }

  predicate SomeLive(ar: seq<Element>)
  {
    exists i :: 0 <= i < |ar| && Live(ar[i])
  }

  lemma FirstOrRest(ar: seq<Element>)
    requires ar != []
    ensures AllFitColumns(ar) <==> (Live(ar[0]) ==> FitsColumns(ar[0])) && AllFitColumns(ar[1..])
    ensures SomeLive(ar) <==> Live(ar[0]) || SomeLive(ar[1..])
    ensures AllInts(ar) ==> AllInts(ar[1..])
  {
    var rest := ar[1..];
    assert forall i :: 0 <= i < |rest| ==> rest[i] == ar[i + 1];
    assert forall i :: 0 < i < |ar| ==> ar[i] == rest[i - 1];
  }

  lemma MembersUnfold(ar: seq<Element>)
    requires AllInts(ar) && ar != [] && AllInts(ar[1..])
    ensures Members(ar) == if Live(ar[0]) then Member(ar[0]) + Members(ar[1..]) else Members(ar[1..])
    ensures BackAll(ar)
            == if !Live(ar[0]) then BackAll(ar[1..])
               else if !FitsColumns(ar[0]) then [] else [Back(ar[0])] + BackAll(ar[1..])
  {
    hide Member, Ints, FitsColumns, Back;
    assert "" + Members(ar[1..]) == Members(ar[1..]);
  }

  lemma {:induction false} MembersRead(ar: seq<Element>, done: seq<Element>)
    requires AllInts(ar)
    ensures Sections(Members(ar), [], done) == Outcome(done + BackAll(ar), AllFitColumns(ar))
    ensures Members(ar) == [] <==> !SomeLive(ar)
    decreases |ar|
  {
    hide Back, Member, Members, BackAll, Sections, FitsColumns, AllFitColumns, SomeLive, Ints;
    if ar == [] {
      NothingLeft(done);
    } else {
      var e, more := ar[0], ar[1..];
      FirstOrRest(ar);
      MembersUnfold(ar);
      if Live(e) {
        MemberReads(e, Members(more), done);
        MemberIsThere(e);
        if FitsColumns(e) {
          MembersRead(more, done + [Back(e)]);
          assert done + [Back(e)] + BackAll(more) == done + ([Back(e)] + BackAll(more));
        } else {
          assert done + [] == done;
        }
      } else {
        MembersRead(more, done);
      }
    }
  }

  lemma NothingLeft(done: seq<Element>)
    ensures Sections([], [], done) == Outcome(done + [], true) && AllFitColumns([]) && !SomeLive([])
    ensures Members([]) == [] && BackAll([]) == []
  {
    assert done + [] == done;
  }

  lemma MemberIsThere(e: Element)
    requires Ints(e)
    ensures Member(e) != []
  {
    hide Columns, NameColumn;
  }

  /** What every archive reads back as: its live members up to one whose numbers do not fit their
      columns, and it is an error if there is such a member, or no live member at all. */
  lemma ParseUnparse(ar: seq<Element>)
    requires AllInts(ar)
    ensures Parse(Unparse(ar)) == Outcome(BackAll(ar), AllFitColumns(ar) && SomeLive(ar))
  {
    hide Sections, Members, BackAll, AllFitColumns, SomeLive;
    MembersRead(ar, []);
    assert [] + BackAll(ar) == BackAll(ar);
    assert Unparse(ar)[..8] == MAGIC && Unparse(ar)[8..] == Members(ar);
    if !SomeLive(ar) {
      NothingIsBack(ar);
    }
  }

  lemma {:induction false} NothingIsBack(ar: seq<Element>)
    requires !SomeLive(ar)
    ensures BackAll(ar) == []
  {
    if ar != [] {
      FirstOrRest(ar);
      NothingIsBack(ar[1..]);
    }
  }

  predicate AllFit(ar: seq<Element>)
  {
    forall i {:trigger ar[i]} :: 0 <= i < |ar| && Live(ar[i]) ==> Fits(ar[i])
  }

  lemma {:induction false} BackIsKept(ar: seq<Element>)
    requires AllFitColumns(ar)
    ensures BackAll(ar) == KeptAll(ar) <==> AllFit(ar)
    decreases |ar|
  {
    hide KeptName, FitsColumns;
    if ar != [] {
      var e, more := ar[0], ar[1..];
      FirstOrRest(ar);
      BackIsKept(more);
      assert AllFit(ar) <==> (Live(e) ==> Fits(e)) && AllFit(more) by {
        assert forall i :: 0 < i < |ar| ==> ar[i] == more[i - 1];
        assert forall i :: 0 <= i < |more| ==> more[i] == ar[i + 1];
      }
      if Live(e) {
        assert BackAll(ar) == [Back(e)] + BackAll(more) && KeptAll(ar) == [Kept(e)] + KeptAll(more);
        assert BackAll(ar)[0] == Back(e) && BackAll(ar)[1..] == BackAll(more);
        assert KeptAll(ar)[0] == Kept(e) && KeptAll(ar)[1..] == KeptAll(more);
      } else {
        assert [] + KeptAll(more) == KeptAll(more);
      }
    }
  }

  /** An archive reads back as its live members if and only if there is one and the numbers of all of
      them fit: neither is a date negative nor another number too wide for its column. */
  lemma ArchiveComesBack(ar: seq<Element>)
    requires AllInts(ar)
    ensures Parse(Unparse(ar)) == Outcome(KeptAll(ar), true) <==> SomeLive(ar) && AllFit(ar)
  {
    hide Parse, Unparse, BackAll, KeptAll, Fits, SomeLive;
    ParseUnparse(ar);
    if AllFitColumns(ar) {
      BackIsKept(ar);
    } else {
      FitIsFitColumns(ar);
    }
  }

  lemma FitIsFitColumns(ar: seq<Element>)
    ensures AllFit(ar) ==> AllFitColumns(ar)
  {
  }

  /** A user id of seven digits makes the archive unreadable, and a negative date comes back changed. */
  lemma ArchiveChangesAt()
    ensures Parse(Unparse([Element("a", 0, 1_000_000, 0, 0, [])])) == Outcome([], false)
    ensures Parse(Unparse([Element("a", -1, 0, 0, 0, [])])) == Outcome([Element("a", INT_MAX, 0, 0, 0, [])], true)
  {
    hide Parse, Unparse;
    var wide, early := [Element("a", 0, 1_000_000, 0, 0, [])], [Element("a", -1, 0, 0, 0, [])];
    assert AllInts(wide) && AllInts(early) by { ShortContents(wide[0]); ShortContents(early[0]); }
    ParseUnparse(wide);
    ParseUnparse(early);
    assert !AllFitColumns(wide) && AllFitColumns(early) && early[1..] == [];
    assert SomeLive(early) by { assert Live(early[0]); }
    assert BackAll(early) == [Back(early[0])] + BackAll([]);
    GoodNameIsKept("a");
  }

  lemma ShortContents(e: Element)
    requires e.name == "a" && e.data == []
    ensures Contents(e) == []
  {
    UpToAll("a", '/');
    assert !IsSpace('a');
  }

  /** A name that is kept whole. */
  predicate GoodName(name: string)
  {
    '/' !in name && (IsLong(name) || '\0' !in name)
  }

  lemma {:induction false} UpToSome(s: string, c: char)
    ensures UpTo(s, c) == s <==> c !in s
  {
    if c !in s {
      UpToAll(s, c);
    } else {
      assert c !in UpTo(s, c);
    }
  }

  lemma NameIsKept(name: string)
    ensures KeptName(name) == name <==> GoodName(name)
  {
    hide UpTo, IsLong;
    UpToSome(name, '/');
    UpToSome(UpTo(name, '/'), '\0');
    assert UpTo(name, '/') <= name && UpTo(UpTo(name, '/'), '\0') <= UpTo(name, '/');
  }

  predicate AllGood(ar: seq<Element>)
  {
    forall i {:trigger ar[i]} :: 0 <= i < |ar| ==> Live(ar[i]) && GoodName(ar[i].name)
  }

  lemma FirstOrRestGood(ar: seq<Element>)
    requires ar != []
    ensures AllGood(ar) <==> Live(ar[0]) && GoodName(ar[0].name) && AllGood(ar[1..])
  {
    hide GoodName;
    var more := ar[1..];
    assert forall i :: 0 < i < |ar| ==> ar[i] == more[i - 1];
    assert forall i :: 0 <= i < |more| ==> more[i] == ar[i + 1];
  }

  /** Members are kept as they are if and only if their names have no slash, and no null character
      unless they are long or have white space in them. */
  lemma {:induction false} GoodMembersAreKept(ar: seq<Element>)
    ensures KeptAll(ar) == ar <==> AllGood(ar)
    ensures |KeptAll(ar)| <= |ar|
  {
    hide KeptName, GoodName, AllGood;
    if ar == [] {
      NoneGood();
    } else {
      var e, more := ar[0], ar[1..];
      NameIsKept(e.name);
      FirstOrRestGood(ar);
      GoodMembersAreKept(more);
      assert ar == [e] + more;
      if Live(e) {
        ConsSame(Kept(e), KeptAll(more), e, more);
      } else {
        assert [] + KeptAll(more) == KeptAll(more);
      }
    }
  }

  lemma NoneGood()
    ensures AllGood([])
  {
  }

  lemma ConsSame(e: Element, es: seq<Element>, e': Element, es': seq<Element>)
    ensures [e] + es == [e'] + es' <==> e == e' && es == es'
  {
    assert ([e] + es)[0] == e && ([e] + es)[1..] == es;
    assert ([e'] + es')[0] == e' && ([e'] + es')[1..] == es';
  }

  lemma {:induction false} BackIsSame(ar: seq<Element>)
    ensures |BackAll(ar)| <= |ar| && (BackAll(ar) == ar ==> KeptAll(ar) == ar)
  {
    hide KeptName, FitsColumns;
    if ar != [] {
      var e, more := ar[0], ar[1..];
      BackIsSame(more);
      assert ar == [e] + more;
      ConsSame(Back(e), BackAll(more), e, more);
    }
  }

  predicate ComesBack(e: Element)
  {
    Live(e) && Fits(e) && GoodName(e.name)
  }

  predicate AllComeBack(ar: seq<Element>)
  {
    forall i {:trigger ar[i]} :: 0 <= i < |ar| ==> ComesBack(ar[i])
  }

  lemma AllComeBackIs(ar: seq<Element>)
    ensures AllComeBack(ar) <==> AllGood(ar) && AllFit(ar)
    ensures AllGood(ar) && ar != [] ==> SomeLive(ar)
  {
    hide GoodName, Fits;
    if AllGood(ar) && ar != [] {
      assert Live(ar[0]);
    }
  }

  /** An archive comes back as it was if and only if it has a member, and every member is live, its
      numbers fit and its name is good. */
  lemma RoundTrip(ar: seq<Element>)
    requires AllInts(ar)
    ensures Parse(Unparse(ar)) == Outcome(ar, true) <==> ar != [] && AllComeBack(ar)
  {
    hide Parse, Unparse, BackAll, KeptAll, AllGood, AllFit, AllComeBack, AllFitColumns, AllInts, SomeLive;
    ParseUnparse(ar);
    ArchiveComesBack(ar);
    GoodMembersAreKept(ar);
    BackIsSame(ar);
    AllComeBackIs(ar);
    NothingLeft([]);
  }
}
