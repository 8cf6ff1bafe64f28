/** What an IPv6 address text is and what it stands for, by the forms of section 2.2 of RFC 4291. */
module Ip6Forms {
  import opened Common
  import opened DottedQuad
  import opened Ip6Text
  import Numeric

  // ---------------------------------------------------------------- groups

  predicate HexDigits(g: string)
  {
    forall i :: 0 <= i < |g| ==> HexValue(g[i]) >= 0
  }

  /** Up to four hex digits, of either case, with or without leading zeros. */
  predicate GroupText(g: string)
  {
    1 <= |g| <= 4 && HexDigits(g)
  }

  predicate GroupTexts(gs: seq<string>)
  {
    forall i {:trigger gs[i]} :: 0 <= i < |gs| ==> GroupText(gs[i])
  }

  function Power16(n: nat): (p: nat)
  {
    if n == 0 then 1 else 16 * Power16(n - 1)
  }

  lemma {:induction false} ValueIsSmall(g: string)
    requires HexDigits(g)
    ensures 0 <= Numeric.Value(g, 16) < Power16(|g|)
  {
    hide HexValue;
    if g != [] {
      ValueIsSmall(g[..|g| - 1]);
    }
  }

  function GroupValue(g: string): (v: nat)
    requires HexDigits(g) && |g| <= 4
    ensures v < 0x1_0000
  {
    ValueIsSmall(g);
    FourDigits(|g|);
    Numeric.Value(g, 16)
  }

  lemma FourDigits(n: nat)
    requires n <= 4
    ensures Power16(n) <= 0x1_0000
  {
    assert Power16(4) == 16 * (16 * (16 * (16 * Power16(0))));
  }

  function Values(gs: seq<string>): (vs: seq<nat>)
    requires GroupTexts(gs)
    ensures |vs| == |gs|
    ensures forall i :: 0 <= i < |gs| ==> vs[i] == GroupValue(gs[i])
  {
    seq(|gs|, i requires 0 <= i < |gs| => GroupValue(gs[i]))
  }

  /** Groups each with a colon behind it. */
  function Closed(gs: seq<string>): (s: string)
  {
    if gs == [] then [] else Closed(gs[..|gs| - 1]) + gs[|gs| - 1] + ":"
  }

  /** Groups with colons between them. */
  function Joined(gs: seq<string>): (s: string)
  {
    if gs == [] then [] else Closed(gs[..|gs| - 1]) + gs[|gs| - 1]
  }

  lemma ClosedMore(gs: seq<string>, g: string)
    ensures Closed(gs + [g]) == Closed(gs) + g + ":" && Joined(gs + [g]) == Closed(gs) + g
  {
    assert (gs + [g])[..|gs|] == gs;
  }

  lemma ValuesMore(gs: seq<string>, g: string)
    requires GroupTexts(gs) && GroupText(g)
    ensures GroupTexts(gs + [g]) && Values(gs + [g]) == Values(gs) + [GroupValue(g)]
  {
    hide GroupValue, GroupText;
  }

  // ---------------------------------------------------------------- the forms of an address

  /** Eight groups; groups around "::"; and the same with a dotted quad for the last two groups. */
  datatype Form =
    | Groups(gs: seq<string>)
    | Gap(ls: seq<string>, rs: seq<string>)
    | GroupsQuad(gs: seq<string>, q: seq<string>)
    | GapQuad(ls: seq<string>, rs: seq<string>, q: seq<string>)

  /** "::" stands for at least one group of zeros. */
  ghost predicate Proper(f: Form)
  {
    match f
    case Groups(gs) => GroupTexts(gs) && |gs| == 8
    case Gap(ls, rs) => GroupTexts(ls) && GroupTexts(rs) && |ls| + |rs| <= 7
    case GroupsQuad(gs, q) => GroupTexts(gs) && |gs| == 6 && QuadTexts(q)
    case GapQuad(ls, rs, q) => GroupTexts(ls) && GroupTexts(rs) && |ls| + |rs| <= 5 && QuadTexts(q)
  }

  ghost function Written(f: Form): (s: string)
    requires Proper(f)
  {
    match f
    case Groups(gs) => Joined(gs)
    case Gap(ls, rs) => Joined(ls) + "::" + Joined(rs)
    case GroupsQuad(gs, q) => Closed(gs) + Dotted(q)
    case GapQuad(ls, rs, q) => Joined(ls) + "::" + Closed(rs) + Dotted(q)
  }

  /** The two groups a dotted quad stands for. */
  ghost function QuadGroups(q: seq<string>): (vs: seq<nat>)
    requires QuadTexts(q)
  {
    DigitsValue(q[0]);
    DigitsValue(q[1]);
    DigitsValue(q[2]);
    DigitsValue(q[3]);
    [DecValue(q[0]) * 256 + DecValue(q[1]), DecValue(q[2]) * 256 + DecValue(q[3])]
  }

  ghost function Denoted(f: Form): (a: seq<nat>)
    requires Proper(f)
  {
    match f
    case Groups(gs) => Values(gs)
    case Gap(ls, rs) => Values(ls) + ZeroRun(8 - |ls| - |rs|) + Values(rs)
    case GroupsQuad(gs, q) => Values(gs) + QuadGroups(q)
    case GapQuad(ls, rs, q) => Values(ls) + ZeroRun(6 - |ls| - |rs|) + Values(rs) + QuadGroups(q)
  }

  /** str is a text of address a. */
  ghost predicate IsTextOf(str: string, a: seq<nat>)
  {
    exists f :: Proper(f) && Written(f) == str && Denoted(f) == a
  }

  // ---------------------------------------------------------------- printed texts

  /** No leading zeros. */
  predicate Shortest(g: string)
  {
    g != [] && (g[0] == '0' ==> |g| == 1)
  }

  /** Lower-case hex digits without leading zeros. */
  predicate ShortHex(g: string)
  {
    Shortest(g) && forall i :: 0 <= i < |g| ==> g[i] in "0123456789abcdef"
  }

  predicate AllShortHex(gs: seq<string>)
  {
    forall i {:trigger gs[i]} :: 0 <= i < |gs| ==> ShortHex(gs[i])
  }

  predicate AllShortest(q: seq<string>)
  {
    forall i {:trigger q[i]} :: 0 <= i < |q| ==> Shortest(q[i])
  }

  /** All digits are written as RFC 5952 has them. */
  predicate Tidy(f: Form)
  {
    match f
    case Groups(gs) => AllShortHex(gs)
    case Gap(ls, rs) => AllShortHex(ls) && AllShortHex(rs)
    case GroupsQuad(gs, q) => AllShortHex(gs) && AllShortest(q)
    case GapQuad(ls, rs, q) => AllShortHex(ls) && AllShortHex(rs) && AllShortest(q)
  }

  /** The form for an address, with zl zero groups from group zp on: a quad behind six zero groups, or
      behind five and 0xFFFF, unless all is zero; otherwise "::" for the run if it is longer than one
      group; otherwise all eight groups. */
  ghost predicate Preferred(f: Form, a: seq<nat>, zp: nat, zl: nat)
    requires |a| == 8 && zp + zl <= 8
  {
    if Zeros(a, 0, 8) then f == Gap([], [])
    else if Zeros(a, 0, 6) then f.GapQuad? && f.ls == [] && f.rs == []
    else if Zeros(a, 0, 5) && a[5] == 0xFFFF then f.GapQuad? && f.ls == [] && f.rs == ["ffff"]
    else if zl > 1 then f.Gap? && |f.ls| == zp && |f.rs| == 8 - zp - zl
    else f.Groups?
  }

  lemma {:induction false} NumeralIsShortest(n: nat, base: nat)
    requires base in {10, 16}
    ensures ShortHex(Numeric.Numeral(n, base, false))
  {
    hide Numeric.Numeral, HexValue;
    Numeric.NumeralIsCanonical(n, base, false);
    var s := Numeric.Numeral(n, base, false);
    forall i | 0 <= i < |s|
      ensures s[i] in "0123456789abcdef"
    {
      Numeric.DigitCharIs(HexValue(s[i]));
    }
  }

  lemma HexesAreShort(vs: seq<nat>)
    ensures AllShortHex(Hexes(vs))
  {
    forall i | 0 <= i < |vs|
      ensures ShortHex(Hexes(vs)[i])
    {
      NumeralIsShortest(vs[i], 16);
    }
  }

  lemma DecsAreShort(b: seq<nat>)
    requires |b| == 4
    ensures AllShortest(Decs(b))
  {
    NumeralIsShortest(b[0], 10);
    NumeralIsShortest(b[1], 10);
    NumeralIsShortest(b[2], 10);
    NumeralIsShortest(b[3], 10);
  }

  lemma HexIsGroup(v: nat)
    requires v < 0x1_0000
    ensures GroupText(Hex(v)) && GroupValue(Hex(v)) == v
  {
    hide HexValue, Numeric.Numeral, Numeric.DigitChar;
    Numeric.NumeralIsCanonical(v, 16, false);
    Numeric.NumeralUnfolds(v, 16, false);
    Numeric.NumeralUnfolds(v / 16, 16, false);
    Numeric.NumeralUnfolds(v / 16 / 16, 16, false);
    Numeric.NumeralUnfolds(v / 16 / 16 / 16, 16, false);
  }

  function Hexes(vs: seq<nat>): (gs: seq<string>)
    ensures |gs| == |vs|
  {
    seq(|vs|, i requires 0 <= i < |vs| => Hex(vs[i]))
  }

  lemma HexesAreGroups(vs: seq<nat>)
    requires forall i :: 0 <= i < |vs| ==> vs[i] < 0x1_0000
    ensures GroupTexts(Hexes(vs)) && Values(Hexes(vs)) == vs
  {
    hide Hex, HexDigits, GroupValue;
    forall i | 0 <= i < |vs| ensures GroupText(Hexes(vs)[i]) && GroupValue(Hexes(vs)[i]) == vs[i] {
      HexIsGroup(vs[i]);
    }
  }

  lemma {:induction false} ClosedFront(g: string, gs: seq<string>)
    ensures Closed([g] + gs) == g + ":" + Closed(gs)
    ensures gs != [] ==> Joined([g] + gs) == g + ":" + Joined(gs)
  {
    hide Closed, Joined;
    if gs == [] {
      ClosedMore([], g);
      NoneJoined();
      assert [] + [g] == [g] + gs;
    } else {
      var n := |gs| - 1;
      ClosedFront(g, gs[..n]);
      ClosedMore([g] + gs[..n], gs[n]);
      ClosedMore(gs[..n], gs[n]);
      assert [g] + gs[..n] + [gs[n]] == [g] + gs;
      assert gs[..n] + [gs[n]] == gs;
    }
  }

  lemma NoneJoined()
    ensures Joined([]) == [] && Closed([]) == []
  {
  }

  lemma {:induction false} JoinIsJoined(vs: seq<nat>)
    ensures Join(vs) == Joined(Hexes(vs))
  {
    hide Hex;
    if |vs| > 1 {
      JoinIsJoined(vs[1..]);
      ClosedFront(Hex(vs[0]), Hexes(vs[1..]));
      assert Hexes(vs) == [Hex(vs[0])] + Hexes(vs[1..]);
    } else if |vs| == 1 {
      assert Hexes(vs)[..0] == [];
      assert Closed([]) == [];
    }
  }

  lemma DecIsPart(b: nat)
    requires b < 256
    ensures PartText(Dec(b)) && DecValue(Dec(b)) == b
  {
    hide Numeric.Numeral, Numeric.DigitChar;
    Numeric.NumeralIsCanonical(b, 10, false);
  }

  function Decs(b: seq<nat>): (q: seq<string>)
    requires |b| == 4
    ensures |q| == 4
  {
    [Dec(b[0]), Dec(b[1]), Dec(b[2]), Dec(b[3])]
  }

  lemma QuadIsDotted(b: seq<nat>)
    requires |b| == 4 && forall i :: 0 <= i < 4 ==> b[i] < 256
    ensures QuadTexts(Decs(b)) && Quad(b) == Dotted(Decs(b))
    ensures QuadGroups(Decs(b)) == [b[0] * 256 + b[1], b[2] * 256 + b[3]]
  {
    hide Dec, PartText, DecValue;
    DecIsPart(b[0]);
    DecIsPart(b[1]);
    DecIsPart(b[2]);
    DecIsPart(b[3]);
  }

  lemma BytesAreGroups(a: seq<nat>)
    requires Address(a)
    ensures var q := Decs(Bytes(a)); QuadTexts(q) && Dotted(q) == Quad(Bytes(a)) && QuadGroups(q) == a[6..]
  {
    hide Quad, Dotted, Decs, QuadGroups, PartText;
    QuadIsDotted(Bytes(a));
  }

  /** str is written in form f, which is a form of a. */
  ghost predicate IsWritten(str: string, f: Form, a: seq<nat>)
  {
    Proper(f) && Written(f) == str && Denoted(f) == a && Tidy(f)
  }

  lemma QuadTextIsForm(a: seq<nat>)
    requires Address(a) && Zeros(a, 0, 6)
    ensures IsWritten("::" + Quad(Bytes(a)), GapQuad([], [], Decs(Bytes(a))), a)
  {
    hide Quad, Dotted, Bytes, Decs, PartText, QuadGroups, Closed, Joined, AllShortest;
    BytesAreGroups(a);
    DecsAreShort(Bytes(a));
    NoneJoined();
    var f, d := GapQuad([], [], Decs(Bytes(a))), Quad(Bytes(a));
    assert Written(f) == "::" + d by { assert [] + "::" + [] + d == "::" + d; }
    assert Denoted(f) == a by { assert a == [] + ZeroRun(6) + [] + a[6..]; }
  }

  lemma FfffTextIsForm(a: seq<nat>)
    requires Address(a) && Zeros(a, 0, 5) && a[5] == 0xFFFF
    ensures IsWritten("::ffff:" + Quad(Bytes(a)), GapQuad([], ["ffff"], Decs(Bytes(a))), a)
  {
    hide Quad, Dotted, Bytes, Decs, PartText, QuadGroups, Closed, Joined, GroupText, GroupValue, AllShortest;
    BytesAreGroups(a);
    DecsAreShort(Bytes(a));
    NoneJoined();
    FfffIsGroup();
    var f, d := GapQuad([], ["ffff"], Decs(Bytes(a))), Quad(Bytes(a));
    assert Written(f) == "::ffff:" + d by { assert [] + "::" + "ffff:" + d == "::ffff:" + d; }
    assert Denoted(f) == a by { assert a == [] + ZeroRun(5) + [0xFFFF] + a[6..]; }
  }

  lemma RunTextIsForm(a: seq<nat>, zp: nat, zl: nat)
    requires Address(a) && zp + zl <= 8 && zl >= 1 && Zeros(a, zp, zp + zl)
    ensures IsWritten(Join(a[..zp]) + "::" + Join(a[zp + zl..]), Gap(Hexes(a[..zp]), Hexes(a[zp + zl..])), a)
  {
    hide Join, Joined, GroupTexts, Values, Hexes, AllShortHex;
    var ls, rs := a[..zp], a[zp + zl..];
    HexesAreGroups(ls);
    HexesAreGroups(rs);
    HexesAreShort(ls);
    HexesAreShort(rs);
    JoinIsJoined(ls);
    JoinIsJoined(rs);
    assert ls + ZeroRun(zl) + rs == a;
  }

  lemma GroupsTextIsForm(a: seq<nat>)
    requires Address(a)
    ensures IsWritten(Join(a), Groups(Hexes(a)), a)
  {
    hide Join, Joined, GroupTexts, Values, Hexes, AllShortHex;
    HexesAreGroups(a);
    HexesAreShort(a);
    JoinIsJoined(a);
  }

  lemma NoHexes()
    ensures Hexes([]) == []
  {
  }

  /** The text written for an address is the preferred form of it. */
  lemma TextIsPreferred(a: seq<nat>, zp: nat, zl: nat) returns (f: Form)
    requires Address(a) && zp + zl <= 8 && Zeros(a, zp, zp + zl)
    ensures IsWritten(Text(a, zp, zl), f, a) && Preferred(f, a, zp, zl)
  {
    hide Join, Quad, Hexes, IsWritten, Decs, Bytes;
    if Zeros(a, 0, 8) {
      f := Gap([], []);
      RunTextIsForm(a, 0, 8);
      JoinOfNone();
      NoHexes();
      assert a[..0] == [] && a[8..] == [] && [] + "::" + [] == "::";
    } else if Zeros(a, 0, 6) {
      f := GapQuad([], [], Decs(Bytes(a)));
      QuadTextIsForm(a);
    } else if Zeros(a, 0, 5) && a[5] == 0xFFFF {
      f := GapQuad([], ["ffff"], Decs(Bytes(a)));
      FfffTextIsForm(a);
    } else if zl > 1 {
      f := Gap(Hexes(a[..zp]), Hexes(a[zp + zl..]));
      RunTextIsForm(a, zp, zl);
    } else {
      f := Groups(Hexes(a));
      GroupsTextIsForm(a);
    }
  }

  /** In particular it is a text of the address, whichever run of zeros is left out. */
  lemma TextIsForm(a: seq<nat>, zp: nat, zl: nat)
    requires Address(a) && zp + zl <= 8 && Zeros(a, zp, zp + zl)
    ensures IsTextOf(Text(a, zp, zl), a)
  {
    hide Text, Zeros, Proper, Written, Denoted, Tidy;
    var f := TextIsPreferred(a, zp, zl);
  }

  lemma FfffIsGroup()
    ensures GroupText("ffff") && GroupValue("ffff") == 0xFFFF && Closed(["ffff"]) == "ffff:"
  {
    var s := "ffff";
    assert s[..3] == "fff" && "fff"[..2] == "ff" && "ff"[..1] == "f" && "f"[..0] == [];
    assert ["ffff"][..0] == [];
  }
}
