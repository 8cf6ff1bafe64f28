/** What an ar archive is, as a sequence of sections, which texts ArchiveElement::parse accepts as one,
    and what it reads from them, long name sections included. */
module ArchiveText {
  import opened Archive
  import opened Common
  import Numeric

  // ---------------------------------------------------------------- sections

  /** A header of sixty characters, the contents it announces, and one more character if these are an
      odd number. */
  datatype Section = Section(header: string, contents: string, pad: string)

  function SectionText(sec: Section): (s: string)
  {
    sec.header + sec.contents + sec.pad
  }

  predicate IsHeader(h: string)
  {
    |h| == 60 && h[58] == '`' && h[59] == '\n'
  }

  /** A section that holds long names. */
  predicate IsNames(sec: Section)
  {
    |sec.header| > 2 && sec.header[0] == '/' && sec.header[1] == '/' && IsSpace(sec.header[2])
  }

  /** Where the name of a member is: its offset in the long name section, its length in front of the
      data, or the header itself. */
  datatype NameAt = AtOffset(offset: int) | InData(length: int) | InHeader(name: string)

  function NameOf(h: string): (at: NameAt)
    requires IsHeader(h)
  {
    if h[0] == '/' && '0' <= h[1] <= '9' then AtOffset(ReadUint(h[1..16], 10))
    else if h[..3] == "#1/" && '0' <= h[3] <= '9' then InData(ReadUint(h[3..16], 10))
    else InHeader(UpToSpace(h[..16]))
  }

  predicate SectionOk(sec: Section)
  {
    && IsHeader(sec.header) && |sec.pad| == |sec.contents| % 2
    && ReadUint(sec.header[48..58], 10) == |sec.contents|
    && (!IsNames(sec) && NameOf(sec.header).InData? ==> NameOf(sec.header).length <= |sec.contents|)
  }

  predicate SectionsOk(secs: seq<Section>)
  {
    forall i {:trigger secs[i]} :: 0 <= i < |secs| ==> SectionOk(secs[i])
  }

  function SectionsText(secs: seq<Section>): (s: string)
  {
    if secs == [] then [] else SectionText(secs[0]) + SectionsText(secs[1..])
  }

  /** The member of a section, when names is what the long name section before it holds. */
  function MemberOf(sec: Section, names: string): (e: Element)
    requires SectionOk(sec)
  {
    var h := sec.header;
    var e := Element([], ReadUint(h[16..28], 10), ReadUint(h[28..34], 10), ReadUint(h[34..40], 10),
                     ReadUint(h[40..48], 8), sec.contents);
    match NameOf(h)
    case AtOffset(offset) => e.(name := LongName(names, offset))
    case InData(n) =>
      if n > 0 && !IsNames(sec) then e.(name := sec.contents[..n], data := sec.contents[n..]) else e
    case InHeader(name) => e.(name := name)
  }

  /** The members, each with the names of the last long name section before it. */
  function MembersOf(secs: seq<Section>, names: string): (es: seq<Element>)
    requires SectionsOk(secs)
  {
    if secs == [] then []
    else if IsNames(secs[0]) then MembersOf(secs[1..], secs[0].contents)
    else [MemberOf(secs[0], names)] + MembersOf(secs[1..], names)
  }

  // ---------------------------------------------------------------- one section

  lemma HeaderIn(h: string, rest: string, lo: nat, hi: nat)
    requires |h| == 60 && lo <= hi <= 60
    ensures (h + rest)[lo..hi] == h[lo..hi]
  {
  }

  lemma NameIn(h: string, rest: string, names: string)
    requires IsHeader(h)
    ensures HeaderName(h + rest, names)
            == match NameOf(h)
               case AtOffset(offset) => (LongName(names, offset), 0)
               case InData(n) => ([], n)
               case InHeader(name) => (name, 0)
  {
    hide ReadUint, UpToSpace, LongName;
    var s := h + rest;
    HeaderIn(h, rest, 1, 16);
    HeaderIn(h, rest, 3, 16);
    HeaderIn(h, rest, 0, 16);
    assert s[0] == h[0] && s[1] == h[1] && s[2] == h[2] && s[3] == h[3];
    assert s[..16] == s[0..16] && h[..16] == h[0..16];
    assert h[..3] == [h[0], h[1], h[2]];
  }

  lemma MemberIn(sec: Section, rest: string, names: string)
    requires SectionOk(sec) && !IsNames(sec)
    ensures var s := SectionText(sec) + rest;
            && |s| >= 60 + |sec.contents| && HeaderName(s, names).1 <= |sec.contents|
            && ReadElement(s, names, |sec.contents|) == MemberOf(sec, names)
  {
    hide ReadUint, UpToSpace, LongName, HeaderName;
    var h, c := sec.header, sec.contents;
    var more := c + (sec.pad + rest);
    var s := h + more;
    assert SectionText(sec) + rest == s;
    NameIn(h, more, names);
    HeaderIn(h, more, 16, 28);
    HeaderIn(h, more, 28, 34);
    HeaderIn(h, more, 34, 40);
    HeaderIn(h, more, 40, 48);
    assert s[60..60 + |c|] == c;
  }

  /** One round of the loop over sections. */
  lemma SectionReads(sec: Section, rest: string, names: string, ar: seq<Element>)
    requires SectionOk(sec)
    ensures Sections(SectionText(sec) + rest, names, ar)
            == if IsNames(sec) then Sections(rest, sec.contents, ar)
               else Sections(rest, names, ar + [MemberOf(sec, names)])
  {
    hide ReadUint, HeaderName, ReadElement, MemberOf, NameOf, IsSpace;
    var h, c := sec.header, sec.contents;
    var more := c + (sec.pad + rest);
    var s := h + more;
    assert SectionText(sec) + rest == s;
    HeaderIn(h, more, 48, 58);
    assert s[58] == h[58] && s[59] == h[59] && s[0] == h[0] && s[1] == h[1] && s[2] == h[2];
    assert s[60..60 + |c|] == c;
    assert s[60 + |c| + |sec.pad|..] == rest;
    if !IsNames(sec) {
      MemberIn(sec, rest, names);
    }
  }

  lemma {:induction false} SectionsRead(secs: seq<Section>, names: string, ar: seq<Element>)
    requires SectionsOk(secs)
    ensures Sections(SectionsText(secs), names, ar) == Outcome(ar + MembersOf(secs, names), true)
    decreases |secs|
  {
    hide SectionOk, SectionText, MemberOf, IsNames;
    if secs == [] {
      assert ar + [] == ar;
    } else {
      hide Sections;
      var sec := secs[0];
      SectionReads(sec, SectionsText(secs[1..]), names, ar);
      if IsNames(sec) {
        SectionsRead(secs[1..], sec.contents, ar);
      } else {
        SectionsRead(secs[1..], names, ar + [MemberOf(sec, names)]);
        assert ar + [MemberOf(sec, names)] + MembersOf(secs[1..], names) == ar + MembersOf(secs, names);
      }
    }
  }

  // ---------------------------------------------------------------- every accepted text

  lemma GoesOn(s: string, names: string, ar: seq<Element>)
    requires s != [] && Sections(s, names, ar).ok
    ensures |s| >= 60 && s[58] == '`' && s[59] == '\n'
    ensures var size := ReadUint(s[48..58], 10);
            && 0 <= size && 60 + size + size % 2 <= |s|
            && (!IsLongNames(s) ==> HeaderName(s, names).1 <= size)
  {
    hide ReadUint, IsSpace, ReadElement, HeaderName;
  }

  lemma Cut(s: string, size: nat)
    requires 60 + size + size % 2 <= |s|
    ensures var n := 60 + size + size % 2;
            s == s[..60] + s[60..60 + size] + s[60 + size..n] + s[n..]
  {
  }

  /** The section that a text which is read further starts with. */
  lemma FirstSection(s: string, names: string, ar: seq<Element>) returns (sec: Section, rest: string)
    requires s != [] && Sections(s, names, ar).ok
    ensures SectionOk(sec) && s == SectionText(sec) + rest && |rest| < |s|
  {
    hide Sections, ReadUint, IsSpace, UpToSpace, LongName, HeaderName;
    GoesOn(s, names, ar);
    var size := ReadUint(s[48..58], 10);
    var n := 60 + size + size % 2;
    var h := s[..60];
    sec := Section(h, s[60..60 + size], s[60 + size..n]);
    rest := s[n..];
    Cut(s, size);
    assert s == h + s[60..];
    NameIn(h, s[60..], names);
    HeaderIn(h, s[60..], 48, 58);
    assert h[58] == s[58] && h[59] == s[59] && h[0] == s[0] && h[1] == s[1] && h[2] == s[2];
  }

  lemma {:induction false} SectionsOf(s: string, names: string, ar: seq<Element>) returns (secs: seq<Section>)
    requires Sections(s, names, ar).ok
    ensures SectionsOk(secs) && s == SectionsText(secs)
    decreases |s|
  {
    hide Sections, SectionOk, SectionText, MemberOf;
    secs := [];
    if s != [] {
      var sec, rest := FirstSection(s, names, ar);
      SectionReads(sec, rest, names, ar);
      var more;
      if IsNames(sec) {
        more := SectionsOf(rest, sec.contents, ar);
      } else {
        more := SectionsOf(rest, names, ar + [MemberOf(sec, names)]);
      }
      secs := [sec] + more;
      assert secs[1..] == more;
    }
  }

  /** A text is an archive with these members if and only if it is the magic string and sections with
      them, one at least. */
  lemma ParseExactly(str: string, es: seq<Element>)
    ensures Parse(str) == Outcome(es, true) <==>
              exists secs :: secs != [] && SectionsOk(secs) && str == MAGIC + SectionsText(secs) && es == MembersOf(secs, [])
  {
    hide Sections, SectionOk, SectionText, MembersOf;
    if Parse(str) == Outcome(es, true) {
      var s := str[8..];
      var secs := SectionsOf(s, [], []);
      SectionsRead(secs, [], []);
      assert [] + MembersOf(secs, []) == MembersOf(secs, []);
      assert str == MAGIC + SectionsText(secs);
      assert secs != [];
    }
    if secs :| secs != [] && SectionsOk(secs) && str == MAGIC + SectionsText(secs) && es == MembersOf(secs, []) {
      SectionIsThere(secs[0]);
      assert str[..8] == MAGIC && str[8..] == SectionsText(secs);
      SectionsRead(secs, [], []);
      assert [] + MembersOf(secs, []) == MembersOf(secs, []);
    }
  }

  lemma SectionIsThere(sec: Section)
    requires SectionOk(sec)
    ensures SectionText(sec) != []
  {
  }

  // ---------------------------------------------------------------- long names

  predicate IsNameText(n: string)
  {
    forall i :: 0 <= i < |n| ==> n[i] != '/' && !IsSpace(n[i])
  }

  lemma {:induction false} UpToSpaceStops(n: string, after: string)
    requires IsNameText(n) && (after == [] || after[0] == '/' || IsSpace(after[0]))
    ensures UpToSpace(n + after) == n
  {
    hide IsSpace;
    if n == [] {
      assert n + after == after;
    } else {
      assert (n + after)[0] == n[0] && (n + after)[1..] == n[1..] + after;
      UpToSpaceStops(n[1..], after);
    }
  }

  /** A long name starts at its offset and ends at a slash, white space or the end of the section. */
  lemma LongNameIs(before: string, n: string, after: string)
    requires n != [] && IsNameText(n) && (after == [] || after[0] == '/' || IsSpace(after[0]))
    ensures LongName(before + n + after, |before|) == n
  {
    hide UpToSpace, IsSpace;
    var names := before + n + after;
    assert names[|before|..] == n + after;
    UpToSpaceStops(n, after);
  }

  /** A header that refers to offset o. */
  predicate RefersTo(h: string, o: nat)
  {
    IsHeader(h) && |Numeral(o, 10)| <= 15 && h[..16] == "/" + Padded(Numeral(o, 10), 15)
  }

  lemma ReferenceReads(h: string, o: nat)
    requires RefersTo(h, o) && o <= INT_MAX
    ensures NameOf(h) == AtOffset(o)
  {
    hide ReadUint, Numeral, UpToSpace;
    var d := Numeral(o, 10);
    ReadPadded(o, 10, 15);
    NumeralIsDigits(o, 10);
    assert h[1..16] == h[..16][1..] == Padded(d, 15);
    assert h[0] == h[..16][0] && h[1] == h[..16][1] == Padded(d, 15)[0] == d[0];
  }

  lemma {:induction false} MembersAppend(a: seq<Section>, b: seq<Section>, names: string)
    requires SectionsOk(a) && SectionsOk(b) && forall i :: 0 <= i < |a| ==> !IsNames(a[i])
    ensures SectionsOk(a + b) && MembersOf(a + b, names) == MembersOf(a, names) + MembersOf(b, names)
    decreases |a|
  {
    hide SectionOk, MemberOf, IsNames;
    if a == [] {
      assert a + b == b && [] + MembersOf(b, names) == MembersOf(b, names);
    } else {
      MembersAppend(a[1..], b, names);
      assert (a + b)[0] == a[0] && (a + b)[1..] == a[1..] + b;
      assert !IsNames(a[0]);
      var e := MemberOf(a[0], names);
      assert [e] + (MembersOf(a[1..], names) + MembersOf(b, names)) == ([e] + MembersOf(a[1..], names)) + MembersOf(b, names);
    }
  }

  /** How many members the sections have. */
  function MemberCount(secs: seq<Section>): (n: nat)
  {
    if secs == [] then 0 else (if IsNames(secs[0]) then 0 else 1) + MemberCount(secs[1..])
  }

  lemma {:induction false} MembersBehind(a: seq<Section>, b: seq<Section>, names: string) returns (names': string)
    requires SectionsOk(a) && SectionsOk(b)
    ensures SectionsOk(a + b) && |MembersOf(a, names)| == MemberCount(a)
    ensures MembersOf(a + b, names) == MembersOf(a, names) + MembersOf(b, names')
    decreases |a|
  {
    hide SectionOk, MemberOf, IsNames;
    if a == [] {
      names' := names;
      assert a + b == b && [] + MembersOf(b, names) == MembersOf(b, names);
    } else {
      names' := MembersBehind(a[1..], b, if IsNames(a[0]) then a[0].contents else names);
      assert (a + b)[0] == a[0] && (a + b)[1..] == a[1..] + b;
      if !IsNames(a[0]) {
        var e := MemberOf(a[0], names);
        assert [e] + (MembersOf(a[1..], names) + MembersOf(b, names')) == ([e] + MembersOf(a[1..], names)) + MembersOf(b, names');
      }
    }
  }

  /** A member that refers to the long name section before it, whatever sections come before, between
      and after, has the name that starts at the offset given, and the contents it comes with. */
  lemma LongNameReads(first: seq<Section>, names: Section, between: seq<Section>, sec: Section, last: seq<Section>,
                      before: string, n: string, after: string)
    requires SectionsOk(first) && SectionOk(names) && SectionsOk(between) && SectionOk(sec) && SectionsOk(last)
    requires IsNames(names) && !IsNames(sec) && forall i :: 0 <= i < |between| ==> !IsNames(between[i])
    requires names.contents == before + n + after && |names.contents| <= INT_MAX && RefersTo(sec.header, |before|)
    requires n != [] && IsNameText(n) && (after == [] || after[0] == '/' || IsSpace(after[0]))
    ensures var k, r := MemberCount(first) + |between|, Parse(MAGIC + SectionsText(first + ([names] + (between + ([sec] + last)))));
            r.ok && k < |r.ar| && r.ar[k].name == n && r.ar[k].data == sec.contents
  {
    hide SectionOk, SectionsOk, IsNames, MemberOf, MembersOf, SectionsText, Parse, RefersTo, IsHeader, IsSpace, IsNameText, LongName;
    var all, held := first + ([names] + (between + ([sec] + last))), names.contents;
    MembersAround(first, names, between, sec, last);
    ParseExactly(MAGIC + SectionsText(all), MembersOf(all, []));
    ReferenceReads(sec.header, |before|);
    LongNameIs(before, n, after);
    MemberAtOffset(sec, held, |before|);
  }

  lemma MembersAround(first: seq<Section>, names: Section, between: seq<Section>, sec: Section, last: seq<Section>)
    requires SectionsOk(first) && SectionOk(names) && SectionsOk(between) && SectionOk(sec) && SectionsOk(last)
    requires IsNames(names) && !IsNames(sec) && forall i :: 0 <= i < |between| ==> !IsNames(between[i])
    ensures var all, k := first + ([names] + (between + ([sec] + last))), MemberCount(first) + |between|;
            && SectionsOk(all) && all != [] && k < |MembersOf(all, [])|
            && MembersOf(all, [])[k] == MemberOf(sec, names.contents)
  {
    hide SectionOk, IsNames, MemberOf;
    var tail, held := [sec] + last, names.contents;
    var rest := [names] + (between + tail);
    assert tail[0] == sec && tail[1..] == last && rest[0] == names && rest[1..] == between + tail;
    MembersAppend(between, tail, held);
    CountPlain(between, held);
    var names' := MembersBehind(first, rest, []);
    var a, b := MembersOf(first, []), MembersOf(between, held);
    assert (a + (b + ([MemberOf(sec, held)] + MembersOf(last, held))))[|a| + |b|] == MemberOf(sec, held);
  }

  lemma {:induction false} CountPlain(secs: seq<Section>, names: string)
    requires SectionsOk(secs) && forall i :: 0 <= i < |secs| ==> !IsNames(secs[i])
    ensures |MembersOf(secs, names)| == |secs|
  {
    hide SectionOk, MemberOf, IsNames;
    if secs != [] {
      assert !IsNames(secs[0]);
      CountPlain(secs[1..], names);
    }
  }

  lemma MemberAtOffset(sec: Section, names: string, o: int)
    requires SectionOk(sec) && NameOf(sec.header) == AtOffset(o)
    ensures MemberOf(sec, names).name == LongName(names, o) && MemberOf(sec, names).data == sec.contents
  {
    hide ReadUint, LongName, UpToSpace;
  }

  /** The section a member is written as. */
  function WrittenAs(e: Element): (sec: Section)
    requires Ints(e)
  {
    var contents := Contents(e);
    Section(NameColumn(UpTo(e.name, '/')) + Columns(e, |contents|), contents, if |contents| % 2 == 1 then "\n" else "")
  }

  lemma {:induction false} PaddingStops(name: string, w: nat)
    requires IsNameText(name) && |name| < w
    ensures UpToSpace(Padded(name, w)) == name
  {
    hide UpToSpace;
    var after := seq(w - |name|, _ => ' ');
    assert Padded(name, w) == name + after;
    SpaceIsSpace();
    hide IsSpace;
    UpToSpaceStops(name, after);
  }

  lemma ShortHeader(h: string, name: string)
    requires IsHeader(h) && IsNameText(name) && |name| < 16 && h[..16] == Padded(name, 16)
    ensures NameOf(h) == InHeader(name) && h[0] != '/'
  {
    hide UpToSpace, ReadUint, IsSpace;
    PaddingStops(name, 16);
    assert forall i :: 0 <= i < 16 ==> h[i] == h[..16][i] && h[i] != '/';
    assert h[..3][2] == h[2];
  }

  lemma LongHeader(h: string, n: nat)
    requires IsHeader(h) && n <= INT_MAX && h[..16] == "#1/" + Padded(Numeral(n, 10), 13)
    ensures NameOf(h) == InData(n) && h[0] != '/'
  {
    hide UpToSpace, ReadUint, Numeral;
    var d, c := Numeral(n, 10), h[..16];
    NumeralOfInt(n);
    ReadPadded(n, 10, 13);
    NumeralIsDigits(n, 10);
    assert h[..3] == c[..3] == "#1/";
    assert h[3..16] == c[3..] == Padded(d, 13);
    assert h[0] == c[0] && h[3] == c[3] == Padded(d, 13)[0] == d[0];
  }

  lemma NoSpaceIsNameText(name: string)
    requires '/' !in name && !HasSpace(name)
    ensures IsNameText(name)
  {
    hide IsSpace;
  }

  lemma WrittenIsOk(e: Element)
    requires Ints(e) && FitsColumns(e)
    ensures var sec := WrittenAs(e);
            && IsHeader(sec.header) && ReadUint(sec.header[48..58], 10) == |sec.contents|
            && sec.header[..16] == NameColumn(UpTo(e.name, '/')) && Member(e) == SectionText(sec)
  {
    hide NameColumn, Columns, UpTo, ReadUint, Contents;
    var sec := WrittenAs(e);
    NameIsShorter(e);
    NameColumnIs16(UpTo(e.name, '/'));
    HeaderReads(e, []);
    assert Member(e) + [] == Member(e) == SectionText(sec);
    var s, h := Member(e), sec.header;
    var more := sec.contents + sec.pad;
    assert s == h + more;
    HeaderIn(h, more, 48, 58);
    assert s[58] == h[58] && s[59] == h[59];
  }

  /** A name of up to fourteen characters without white space goes into the header, and any other in
      front of the data. */
  lemma NameIsWritten(e: Element)
    requires Ints(e) && FitsColumns(e) && '/' !in e.name && '\0' !in e.name
    ensures var sec := WrittenAs(e);
            && Member(e) == SectionText(sec) && SectionOk(sec) && !IsNames(sec)
            && if |e.name| <= 14 && !HasSpace(e.name)
               then NameOf(sec.header) == InHeader(e.name) && sec.contents == e.data
               else NameOf(sec.header) == InData(|e.name|) && sec.contents == e.name + e.data
  {
    hide Columns, UpTo, HasSpace, ReadUint, IsSpace, UpToSpace, NameOf, Numeral, Padded, Member;
    var sec := WrittenAs(e);
    UpToAll(e.name, '/');
    UpToAll(e.name, '\0');
    WrittenIsOk(e);
    NameIsShorter(e);
    if IsLong(e.name) {
      LongHeader(sec.header, |e.name|);
    } else {
      NoSpaceIsNameText(e.name);
      ShortHeader(sec.header, e.name);
    }
  }

  // ---------------------------------------------------------------- columns

  lemma {:induction false} SpanStops(s: string, i: nat, n: nat, base: nat)
    requires i <= n <= |s| && base in {8, 10} && (n == |s| || (s[n] != '_' && !IsDigit(s[n], base)))
    requires forall k :: 0 <= k < n ==> IsDigit(s[k], base)
    ensures Span(s, i, i, base) == n
    decreases n - i
  {
    if i < n {
      SpanStops(s, i + 1, n, base);
    }
  }

  lemma {:induction false} ValueIs(d: string, base: nat)
    requires base in {8, 10} && forall k :: 0 <= k < |d| ==> IsDigit(d[k], base)
    ensures Value(d, base, 0) == Numeric.Value(d, base)
  {
    if d != [] {
      var n := |d| - 1;
      ValueIs(d[..n], base);
      ValueAppend(d[..n], d[n], base, 0);
      assert d[..n] + [d[n]] == d;
      DigitHasValue(d[n], base);
    }
  }

  lemma DigitHasValue(c: char, base: nat)
    requires base in {8, 10} && IsDigit(c, base)
    ensures HexValue(c) == c as int - '0' as int
  {
  }

  function Saturated(v: int): (w: int)
  {
    if v > INT_MAX then INT_MAX else if v < -INT_MAX - 1 then -INT_MAX - 1 else v
  }

  predicate Digits(d: string, base: nat)
  {
    forall k :: 0 <= k < |d| ==> IsDigit(d[k], base)
  }

  /** The digits at position k of s, and nothing that would go on with them. */
  lemma SpanAt(s: string, k: nat, d: string, rest: string, base: nat)
    requires base in {8, 10} && k <= |s| && s[k..] == d + rest && Digits(d, base)
    requires rest == [] || (rest[0] != '_' && !IsDigit(rest[0], base))
    ensures Span(s[k..], 0, 0, base) == |d| && s[k..k + |d|] == d && Value(d, base, 0) == Numeric.Value(d, base)
  {
    hide Span, Value, Numeric.Value, IsDigit;
    SpanStops(d + rest, 0, |d|, base);
    assert s[k..k + |d|] == s[k..][..|d|] == d;
    ValueIs(d, base);
  }

  predicate IsSign(sign: string)
  {
    sign == "" || sign == "+" || sign == "-"
  }

  lemma IntegerAt(s: string, k: nat, n: nat, v: int, base: nat)
    requires s != [] && k == (if s[0] == '-' || s[0] == '+' then 1 else 0)
    requires n > 0 && k + n <= |s| && Span(s[k..], 0, 0, base) == n && Value(s[k..k + n], base, 0) == v
    ensures CpInteger(s, base) == (k + n, Saturated(if s[0] == '-' then -v else v))
  {
    hide Span, Value;
  }

  lemma UnsignedReads(d: string, rest: string, base: nat)
    requires base in {8, 10} && d != [] && Digits(d, base)
    requires rest == [] || (rest[0] != '_' && !IsDigit(rest[0], base))
    ensures CpInteger(d + rest, base) == (|d|, Saturated(Numeric.Value(d, base)))
  {
    hide Span, Value, Numeric.Value, Digits, CpInteger, IsDigit, Saturated;
    var s := d + rest;
    assert s[0..] == d + rest;
    SpanAt(s, 0, d, rest, base);
    FirstDigit(d, base);
    assert s[0] == d[0];
    IntegerAt(s, 0, |d|, Numeric.Value(d, base), base);
  }

  lemma SignedReads(sign: char, d: string, rest: string, base: nat)
    requires base in {8, 10} && (sign == '+' || sign == '-') && d != [] && Digits(d, base)
    requires rest == [] || (rest[0] != '_' && !IsDigit(rest[0], base))
    ensures var v := Numeric.Value(d, base);
            CpInteger([sign] + d + rest, base) == (1 + |d|, Saturated(if sign == '-' then -v else v))
  {
    hide Span, Value, Numeric.Value, Digits, CpInteger, IsDigit, Saturated;
    var s := [sign] + d + rest;
    assert s[1..] == d + rest;
    SpanAt(s, 1, d, rest, base);
    assert s[0] == sign;
    IntegerAt(s, 1, |d|, Numeric.Value(d, base), base);
  }

  lemma IntegerReads(sign: string, d: string, rest: string, base: nat)
    requires base in {8, 10} && IsSign(sign) && d != [] && Digits(d, base)
    requires rest == [] || (rest[0] != '_' && !IsDigit(rest[0], base))
    ensures var v := Numeric.Value(d, base);
            CpInteger(sign + d + rest, base) == (|sign| + |d|, Saturated(if sign == "-" then -v else v))
  {
    hide Numeric.Value, Digits, CpInteger, IsDigit, Saturated;
    if sign == "" {
      assert sign + d + rest == d + rest;
      UnsignedReads(d, rest, base);
    } else {
      assert sign == [sign[0]];
      SignedReads(sign[0], d, rest, base);
    }
  }

  lemma FirstDigit(d: string, base: nat)
    requires base in {8, 10} && d != [] && Digits(d, base)
    ensures d[0] != '-' && d[0] != '+'
  {
  }

  /** read_uint on a column that starts with a numeral: its value, as far as an int can hold it, if white
      space or nothing follows, and -1 otherwise. */
  lemma ColumnReads(sign: string, d: string, rest: string, base: nat)
    requires base in {8, 10} && IsSign(sign) && d != [] && Digits(d, base)
    requires rest == [] || (rest[0] != '_' && !IsDigit(rest[0], base))
    ensures var v := Numeric.Value(d, base);
            ReadUint(sign + d + rest, base)
            == if rest == [] || IsSpace(rest[0]) then Saturated(if sign == "-" then -v else v) else -1
  {
    hide CpInteger, Digits, IsDigit, IsSpace, Numeric.Value;
    IntegerReads(sign, d, rest, base);
    assert rest != [] ==> (sign + d + rest)[|sign| + |d|] == rest[0];
  }

  /** A column that does not start with a numeral is bad. */
  lemma BadColumn(s: string, base: nat)
    requires base in {8, 10} && (s == [] || (!IsDigit(s[0], base) && s[0] != '+' && s[0] != '-'))
    ensures ReadUint(s, base) == -1
  {
    assert s[0..] == s;
    SpanOfNone(s, base);
  }

  lemma SpanOfNone(s: string, base: nat)
    requires s == [] || !IsDigit(s[0], base)
    ensures Span(s, 0, 0, base) == 0
  {
  }
}
