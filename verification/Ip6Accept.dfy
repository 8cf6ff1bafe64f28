/** Which texts IP6AddressArg::parse accepts, as which addresses, and which texts take basic_parse
    beyond its eight groups. */
module Ip6Accept {
  import opened Common
  import opened DottedQuad
  import opened Ip6Forms
  import opened Ip6Text
  import opened Ip6Scan
  import Numeric

  // ---------------------------------------------------------------- the quad looked for at the end

  lemma {:induction false} ColonFound(str: string, s: nat, t: nat)
    requires t <= s < |str| && (t == 0 || str[t] == ':') && forall i :: t < i <= s ==> str[i] != ':'
    ensures BackToColon(str, s) == t
  {
    if s != t {
      ColonFound(str, s - 1, t);
    }
  }

  /** Groups enough in front of a quad. */
  predicate QuadPlace(tr: Trace)
  {
    Count(tr) == 6 || (tr.gap && Count(tr) < 6)
  }

  lemma BeforeDigits(tr: Trace) returns (pre: string)
    requires Possible(tr) && Count(tr) > 0
    ensures TraceText(tr) == pre + tr.cur && |pre| >= 2 && pre[|pre| - 1] == ':'
  {
    hide GroupTexts, Joined;
    pre := TraceText(tr.(cur := []));
    if !tr.gap || tr.rs != [] {
      var gs := if tr.gap then tr.rs else tr.ls;
      assert GroupText(gs[|gs| - 1]) by { LastIsGroup(gs); }
    }
  }

  lemma LastIsGroup(gs: seq<string>)
    requires GroupTexts(gs) && gs != []
    ensures GroupText(gs[|gs| - 1])
  {
  }

  lemma DigitsHaveNoColon(cur: string)
    requires HexDigits(cur)
    ensures forall i :: 0 <= i < |cur| ==> cur[i] != ':'
  {
  }

  lemma SuffixBehindDigits(tr: Trace, rest: string)
    requires Possible(tr) && tr.cur != [] && rest != [] && rest[0] != ':'
    ensures Suffix(TraceText(tr) + rest, |TraceText(tr)|, StateOf(tr))
            == if QuadPlace(tr) then ParseQuad(tr.cur + rest) else None
  {
    hide HexValue, ParseQuad, TraceText, GroupTexts, HexDigits, Filled, Complete;
    var str, s := TraceText(tr) + rest, |TraceText(tr)|;
    if Count(tr) > 0 {
      var pre := BeforeDigits(tr);
      DigitsHaveNoColon(tr.cur);
      ColonFound(str, s, |pre| - 1);
      assert str[|pre|..] == tr.cur + rest;
    }
  }

  lemma SuffixAtColon(tr: Trace, rest: string)
    requires Possible(tr) && rest != [] && rest[0] == ':'
    requires tr.cur != [] || Count(tr) == 0 ==> rest == ":" || Count(tr) == 7
    ensures Suffix(TraceText(tr) + rest, |TraceText(tr)|, StateOf(tr))
            == if tr.cur == [] && 1 <= Count(tr) <= 7 then ParseQuad(rest[1..]) else None
  {
    hide HexValue, ParseQuad, TraceText, GroupTexts, HexDigits, Filled, Complete;
    var str, s := TraceText(tr) + rest, |TraceText(tr)|;
    ColonFound(str, s, s);
    assert str[s + 1..] == rest[1..];
    QuadHead([]);
    if tr.cur == [] && Count(tr) > 0 {
      var pre := BeforeDigits(tr);
    }
  }

  lemma QuadHead(t: string)
    ensures ParseQuad(t).Some? ==> t != [] && IsDigit(t[0])
  {
    hide ParseQuad, DecValues;
    if ParseQuad(t).Some? {
      QuadExactly(t, ParseQuad(t).value);
      var q :| QuadTexts(q) && t == Dotted(q) && ParseQuad(t).value == DecValues(q);
      assert PartText(q[0]);
    }
  }

  // ---------------------------------------------------------------- what comes of each text

  lemma SpreadIs(parts: seq<nat>, ls: seq<nat>, rs: seq<nat>)
    requires |parts| == 8 && |ls| + 1 + |rs| <= 8 && parts[..|ls| + 1 + |rs|] == ls + [0] + rs
    ensures Spread(parts, |ls|, |ls| + |rs|) == ls + ZeroRun(8 - |ls| - |rs|) + rs
  {
    var n := |ls| + 1 + |rs|;
    var a := Spread(parts, |ls|, n - 1);
    assert parts[..|ls| + 1] == ls + [0] by { assert parts[..n][..|ls| + 1] == parts[..|ls| + 1]; }
    assert parts[|ls| + 1..n] == rs by { assert parts[..n][|ls| + 1..] == parts[|ls| + 1..n]; }
    if n == 8 {
      assert a == ls + [0] + rs && ZeroRun(1) == [0];
    } else {
      assert ZeroRun(9 - n) == [0] + ZeroRun(8 - n);
    }
  }

  /** The form of a text that the scanner reads to its end. */
  function EndForm(tr: Trace): (f: Form)
  {
    if !tr.gap then Groups(tr.ls + [tr.cur])
    else if tr.cur == [] then Gap(tr.ls, [])
    else Gap(tr.ls, tr.rs + [tr.cur])
  }

  predicate Ample(tr: Trace)
  {
    tr.gap || (Count(tr) == 7 && tr.cur != [])
  }

  lemma EndIsForm(tr: Trace)
    requires Possible(tr) && Ample(tr)
    ensures Proper(EndForm(tr)) && Written(EndForm(tr)) == TraceText(tr)
  {
    hide HexValue, Closed, Joined;
    var gs := if tr.gap then tr.rs else tr.ls;
    ClosedMore(gs, tr.cur);
    if tr.cur == [] {
      assert Joined([]) == [] && Closed([]) == [] by { NoneJoined(); }
    } else {
      ValuesMore(gs, tr.cur);
    }
  }

  /** The groups the scanner has stored. */
  lemma StoredGroups(tr: Trace)
    requires Possible(tr)
    ensures var vs := Complete(tr) + if tr.cur == [] then [] else [GroupValue(tr.cur)];
            |vs| <= 8 && StateOf(tr).parts[..|vs|] == vs
  {
    hide Complete, GroupValue, GroupTexts, HexDigits;
  }

  lemma EndValue(tr: Trace)
    requires Possible(tr) && Ample(tr)
    ensures Proper(EndForm(tr))
    ensures var st := StateOf(tr); Spread(st.parts, st.cc, LastGroup(st)) == Denoted(EndForm(tr))
  {
    hide GroupValue, HexDigits, Filled, Values, Spread, Closed, Joined;
    EndIsForm(tr);
    StoredGroups(tr);
    assert Values([]) == [];
    var gs := if tr.gap then tr.rs else tr.ls;
    var st := StateOf(tr);
    if tr.cur != [] {
      ValuesMore(gs, tr.cur);
    }
    if tr.gap {
      var rs := if tr.cur == [] then [] else tr.rs + [tr.cur];
      assert Complete(tr) + (if tr.cur == [] then [] else [GroupValue(tr.cur)]) == Values(tr.ls) + [0] + Values(rs);
      SpreadIs(st.parts, Values(tr.ls), Values(rs));
    } else {
      SpreadWhole(st.parts);
    }
  }

  lemma SpreadWhole(parts: seq<nat>)
    requires |parts| == 8
    ensures Spread(parts, -1, 7) == parts
  {
  }

  lemma EndGives(tr: Trace)
    requires Possible(tr)
    ensures BasicParse(TraceText(tr))
            == if Ample(tr) then EndIsForm(tr); Parsed(|TraceText(tr)|, Denoted(EndForm(tr))) else NoAddress
  {
    hide Scanned, TraceText, GroupTexts, HexDigits, Spread, Filled, Complete, GroupValue, Denoted, Proper, Written;
    var str := TraceText(tr);
    assert str + [] == str;
    TraceScans(tr, []);
    StopGives(tr, []);
    if Ample(tr) {
      EndValue(tr);
    }
  }

  // ---------------------------------------------------------------- ... with a quad

  function QuadForm(tr: Trace, q: seq<string>): (f: Form)
  {
    if tr.gap then GapQuad(tr.ls, tr.rs, q) else GroupsQuad(tr.ls, q)
  }

  /** Scanning reads up to four digits of a quad as a group. */
  ghost predicate QuadRead(tr: Trace, rest: string, q: seq<string>)
  {
    && Possible(tr) && QuadPlace(tr) && QuadTexts(q)
    && tr.cur != [] && rest != [] && rest[0] != ':' && tr.cur + rest == Dotted(q)
  }

  lemma QuadIsForm(tr: Trace, rest: string, q: seq<string>)
    requires QuadRead(tr, rest, q)
    ensures Proper(QuadForm(tr, q)) && Written(QuadForm(tr, q)) == TraceText(tr) + rest
  {
    hide HexValue, Closed, Joined, Dotted, PartText, GroupTexts;
  }

  lemma FilledFurther(vs: seq<nat>, parts: seq<nat>, v: nat, w: nat)
    requires |vs| <= 6 && |parts| == 8 && parts[..|vs|] == vs
    ensures Set(Set(parts, |vs|, v), |vs| + 1, w)[..|vs| + 2] == vs + [v, w]
  {
  }

  /** The value of groups, "::" and groups that end in a quad. */
  lemma QuadSpread(ls: seq<nat>, rs: seq<nat>, parts: seq<nat>, v: nat, w: nat)
    requires |ls| + 1 + |rs| <= 6 && |parts| == 8 && parts[..|ls| + 1 + |rs|] == ls + [0] + rs
    ensures var n := |ls| + 1 + |rs|;
            Spread(Set(Set(parts, n, v), n + 1, w), |ls|, n + 1) == ls + ZeroRun(6 - |ls| - |rs|) + rs + [v, w]
  {
    hide Set, Spread;
    var n := |ls| + 1 + |rs|;
    FilledFurther(ls + [0] + rs, parts, v, w);
    assert ls + [0] + rs + [v, w] == ls + [0] + (rs + [v, w]);
    SpreadIs(Set(Set(parts, n, v), n + 1, w), ls, rs + [v, w]);
    assert ls + ZeroRun(6 - |ls| - |rs|) + (rs + [v, w]) == ls + ZeroRun(6 - |ls| - |rs|) + rs + [v, w];
  }

  /** The parts of a quad as bytes. */
  lemma QuadBytes(q: seq<string>)
    requires QuadTexts(q)
    ensures ParseQuad(Dotted(q)) == Some(DecValues(q)) && |DecValues(q)| == 4
    ensures QuadGroups(q) == [DecValues(q)[0] * 256 + DecValues(q)[1], DecValues(q)[2] * 256 + DecValues(q)[3]]
  {
    hide DecValue, PartText, ParseQuad, Dotted;
    QuadExactly(Dotted(q), DecValues(q));
  }

  lemma QuadValue(tr: Trace, q: seq<string>, v: nat, w: nat)
    requires Possible(tr) && QuadPlace(tr) && tr.cur != [] && QuadTexts(q) && QuadGroups(q) == [v, w]
    ensures Proper(QuadForm(tr, q))
    ensures var n, parts := Count(tr), StateOf(tr).parts;
            Spread(Set(Set(parts, n, v), n + 1, w), StateOf(tr).cc, n + 1) == Denoted(QuadForm(tr, q))
  {
    hide GroupValue, HexDigits, Filled, Values, Spread, Set, PartText, QuadGroups, GroupTexts;
    StoredGroups(tr);
    var n, parts := Count(tr), StateOf(tr).parts;
    assert parts[..n] == Complete(tr) by { assert parts[..n + 1][..n] == parts[..n]; }
    if tr.gap {
      QuadSpread(Values(tr.ls), Values(tr.rs), parts, v, w);
    } else {
      FilledFurther(Complete(tr), parts, v, w);
      SpreadWhole(Set(Set(parts, n, v), n + 1, w));
    }
  }

  lemma QuadGives(tr: Trace, rest: string, q: seq<string>)
    requires QuadRead(tr, rest, q) && StopsHere(tr, rest)
    ensures Proper(QuadForm(tr, q))
    ensures BasicParse(TraceText(tr) + rest) == Parsed(|TraceText(tr) + rest|, Denoted(QuadForm(tr, q)))
  {
    hide Scanned, TraceText, GroupTexts, HexDigits, Spread, Filled, Complete, GroupValue, Denoted, Proper, Written,
      StopsHere, Suffix, ParseQuad, Dotted, DecValues, PartText, QuadGroups, Set, HexValue;
    TraceScans(tr, rest);
    StopGives(tr, rest);
    SuffixBehindDigits(tr, rest);
    QuadBytes(q);
    var quad := ParseQuad(Dotted(q)).value;
    QuadValue(tr, q, quad[0] * 256 + quad[1], quad[2] * 256 + quad[3]);
  }

  // ---------------------------------------------------------------- ... and otherwise

  lemma TripleValue(ls: seq<string>, q: seq<string>, v: nat, w: nat)
    requires GroupTexts(ls) && |ls| <= 5 && QuadTexts(q) && QuadGroups(q) == [v, w]
    requires Possible(Trace(ls, true, [], []))
    ensures var n, parts := |ls| + 1, StateOf(Trace(ls, true, [], [])).parts;
            Spread(Set(Set(parts, n, v), n + 1, w), |ls|, n + 1) == Denoted(GapQuad(ls, [], q))
  {
    hide HexDigits, Spread, Set, Filled, GroupValue, GroupText, Values, PartText, QuadGroups;
    var tr := Trace(ls, true, [], []);
    StoredGroups(tr);
    assert Values([]) == [];
    assert Complete(tr) + [] == Values(ls) + [0] + [];
    QuadSpread(Values(ls), [], StateOf(tr).parts, v, w);
  }

  /** ":::" in front of a quad: the quad goes behind the gap, if there is room for it. */
  lemma TripleGives(ls: seq<string>, q: seq<string>)
    requires GroupTexts(ls) && |ls| <= 6 && QuadTexts(q)
    ensures var str := Joined(ls) + ":::" + Dotted(q);
            BasicParse(str) == if |ls| == 6 then Beyond else Parsed(|str|, Denoted(GapQuad(ls, [], q)))
  {
    hide Scanned, HexDigits, Spread, Filled, Complete, GroupText, Joined, TraceText, Denoted,
      Suffix, ParseQuad, Dotted, DecValues, PartText, QuadGroups, Set, HexValue;
    var tr, rest := Trace(ls, true, [], []), ":" + Dotted(q);
    var str := Joined(ls) + ":::" + Dotted(q);
    GapIsPossible(ls);
    assert TraceText(tr) + rest == str;
    TraceScans(tr, rest);
    ColonIsNoDigit();
    StopGives(tr, rest);
    SuffixAtColon(tr, rest);
    assert rest[1..] == Dotted(q);
    QuadBytes(q);
    var quad := ParseQuad(Dotted(q)).value;
    if |ls| < 6 {
      TripleValue(ls, q, quad[0] * 256 + quad[1], quad[2] * 256 + quad[3]);
    }
  }

  lemma GapIsPossible(ls: seq<string>)
    requires GroupTexts(ls) && |ls| <= 7
    ensures Possible(Trace(ls, true, [], [])) && TraceText(Trace(ls, true, [], [])) == Joined(ls) + "::"
  {
  }

  lemma ColonIsNoDigit()
    ensures HexValue(':') < 0
  {
  }

  /** Text is left over. */
  predicate LeftOver(str: string)
  {
    var r := BasicParse(str);
    r.NoAddress? || (r.Parsed? && r.consumed < |str|)
  }

  lemma BehindGives(tr: Trace, rest: string)
    requires Possible(tr) && StopsBehind(tr, rest)
    ensures LeftOver(TraceText(tr) + rest)
  {
    hide Scanned, TraceText, GroupTexts, HexDigits, Spread, Filled, Complete, GroupValue, HexValue, ParseQuad;
    var str, s := TraceText(tr) + rest, |TraceText(tr)|;
    TraceScans(tr, rest);
    StopGives(tr, rest);
    ColonFound(str, s, s);
    assert str[s + 1..] == rest[1..];
    QuadHead(rest[1..]);
    DigitIsHex(rest[1]);
  }

  lemma DigitIsHex(c: char)
    ensures IsDigit(c) ==> HexValue(c) >= 0
  {
  }

  lemma QuadOf(t: string) returns (q: seq<string>)
    requires ParseQuad(t).Some?
    ensures QuadTexts(q) && t == Dotted(q)
  {
    hide ParseQuad, DecValues, Dotted, PartText;
    QuadExactly(t, ParseQuad(t).value);
    q :| QuadTexts(q) && t == Dotted(q) && ParseQuad(t).value == DecValues(q);
  }

  lemma SuffixBehindNothing(tr: Trace, rest: string)
    requires Possible(tr) && tr.cur == [] && StopsHere(tr, rest) && rest != [] && rest[0] != ':'
    ensures Suffix(TraceText(tr) + rest, |TraceText(tr)|, StateOf(tr)) == None
  {
    hide HexValue, ParseQuad, TraceText, GroupTexts, HexDigits, Filled, Complete;
    var str, s := TraceText(tr) + rest, |TraceText(tr)|;
    if Count(tr) > 0 {
      var pre := BeforeDigits(tr);
      ColonFound(str, s, s - 1);
      assert str[s..] == rest;
      QuadHead(rest);
      DigitIsHex(rest[0]);
    }
  }

  /** The two places for a quad. */
  lemma SuffixIsQuad(tr: Trace, rest: string) returns (q: seq<string>)
    requires Possible(tr) && StopsHere(tr, rest)
    requires Suffix(TraceText(tr) + rest, |TraceText(tr)|, StateOf(tr)).Some?
    ensures QuadTexts(q)
    ensures QuadRead(tr, rest, q) || (rest == ":" + Dotted(q) && tr.cur == [] && 1 <= Count(tr) <= 7)
  {
    hide StateOf, TraceText, GroupTexts, HexDigits, HexValue, ParseQuad, Dotted, DecValues, PartText;
    if rest[0] == ':' {
      ColonIsNoDigit();
      SuffixAtColon(tr, rest);
      q := QuadOf(rest[1..]);
      assert rest == ":" + Dotted(q);
    } else if tr.cur != [] {
      SuffixBehindDigits(tr, rest);
      q := QuadOf(tr.cur + rest);
    } else {
      SuffixBehindNothing(tr, rest);
    }
  }

  lemma OtherGives(tr: Trace, rest: string)
    requires Possible(tr) && StopsHere(tr, rest) && rest != []
    requires Suffix(TraceText(tr) + rest, |TraceText(tr)|, StateOf(tr)) == None
    ensures LeftOver(TraceText(tr) + rest)
  {
    hide Scanned, TraceText, GroupTexts, HexDigits, Spread, Filled, Complete, GroupValue, HexValue, Suffix;
    TraceScans(tr, rest);
    StopGives(tr, rest);
  }

  // ---------------------------------------------------------------- forms are accepted

  /** How the scanner takes a form: no colon is left. */
  ghost predicate TakenAs(f: Form, tr: Trace, rest: string)
    requires Proper(f)
  {
    && Possible(tr) && StopsHere(tr, rest) && Written(f) == TraceText(tr) + rest && ':' !in rest
    && BasicParse(Written(f)) == Parsed(|Written(f)|, Denoted(f))
  }

  lemma EndTaken(tr: Trace)
    requires Possible(tr) && Ample(tr)
    ensures Proper(EndForm(tr)) && TakenAs(EndForm(tr), tr, [])
  {
    hide Possible, Proper, Written, Denoted, BasicParse, TraceText, EndForm;
    EndIsForm(tr);
    EndGives(tr);
    assert TraceText(tr) + [] == TraceText(tr);
  }

  lemma GroupsTaken(gs: seq<string>) returns (tr: Trace, rest: string)
    requires Proper(Groups(gs))
    ensures TakenAs(Groups(gs), tr, rest)
  {
    hide TakenAs, HexDigits;
    tr, rest := Trace(gs[..7], false, [], gs[7]), [];
    assert gs[..7] + [gs[7]] == gs;
    EndTaken(tr);
  }

  lemma GapTaken(ls: seq<string>, rs: seq<string>) returns (tr: Trace, rest: string)
    requires Proper(Gap(ls, rs))
    ensures TakenAs(Gap(ls, rs), tr, rest)
  {
    hide TakenAs;
    rest := [];
    if rs == [] {
      tr := Trace(ls, true, [], []);
    } else {
      var n := |rs| - 1;
      tr := Trace(ls, true, rs[..n], rs[n]);
      assert rs[..n] + [rs[n]] == rs;
    }
    EndTaken(tr);
  }

  /** The digits of a quad that are read as a group, and the rest of it. */
  lemma QuadDivides(q: seq<string>) returns (cur: string, rest: string)
    requires QuadTexts(q)
    ensures cur + rest == Dotted(q) && 1 <= |cur| <= 4 && HexDigits(cur)
    ensures rest != [] && ':' !in rest && (HexValue(rest[0]) >= 0 ==> |cur| == 4)
  {
    hide HexValue, DecValue;
    assert forall i :: 0 <= i < 4 ==> PartText(q[i]);
    QuadChars(q);
    DotIsNoDigit();
    var t, n := Dotted(q), if |q[0]| < 4 then |q[0]| else 4;
    cur, rest := t[..n], t[n..];
    assert cur == q[0][..n];
    forall i | 0 <= i < |cur| ensures HexValue(cur[i]) >= 0 {
      DigitIsHex(cur[i]);
    }
    if |q[0]| < 4 {
      assert rest[0] == '.';
    }
  }

  lemma DotIsNoDigit()
    ensures HexValue('.') < 0
  {
  }

  lemma QuadChars(q: seq<string>)
    requires QuadTexts(q)
    ensures forall i :: 0 <= i < |Dotted(q)| ==> Dotted(q)[i] == '.' || IsDigit(Dotted(q)[i])
  {
    hide DecValue, IsDigit;
    assert PartText(q[0]) && PartText(q[1]) && PartText(q[2]) && PartText(q[3]);
  }

  lemma QuadTaken(ls: seq<string>, gap: bool, rs: seq<string>, q: seq<string>) returns (tr: Trace, rest: string)
    requires GroupTexts(ls) && GroupTexts(rs) && QuadTexts(q)
    requires if gap then |ls| + |rs| <= 5 else |ls| == 6 && rs == []
    ensures Proper(QuadForm(tr, q)) && TakenAs(QuadForm(tr, q), tr, rest)
    ensures tr.ls == ls && tr.gap == gap && tr.rs == rs
  {
    hide GroupTexts, HexValue, HexDigits, PartText, Dotted, Proper, Written, Denoted, TraceText, BasicParse;
    var cur;
    cur, rest := QuadDivides(q);
    tr := Trace(ls, gap, rs, cur);
    QuadIsForm(tr, rest, q);
    QuadGives(tr, rest, q);
  }

  lemma FormTaken(f: Form) returns (tr: Trace, rest: string)
    requires Proper(f)
    ensures TakenAs(f, tr, rest)
  {
    hide TakenAs, QuadTexts, GroupText;
    match f
    case Groups(gs) => tr, rest := GroupsTaken(gs);
    case Gap(ls, rs) => tr, rest := GapTaken(ls, rs);
    case GroupsQuad(gs, q) => tr, rest := QuadTaken(gs, false, [], q);
    case GapQuad(ls, rs, q) => tr, rest := QuadTaken(ls, true, rs, q);
  }

  // ---------------------------------------------------------------- exactly the forms, but for two

  /** Groups, ":::" and a dotted quad: no form, but read as if the third colon were not there. */
  ghost predicate IsTriple(str: string, ls: seq<string>, q: seq<string>)
  {
    GroupTexts(ls) && QuadTexts(q) && str == Joined(ls) + ":::" + Dotted(q)
  }

  /** Seven groups and "::", with the first digit of another group behind it. */
  ghost predicate IsNinth(str: string, ls: seq<string>, t: string)
  {
    GroupTexts(ls) && |ls| == 7 && t != [] && HexValue(t[0]) >= 0 && str == Joined(ls) + "::" + t
  }

  lemma TripleProper(str: string, ls: seq<string>, q: seq<string>)
    requires IsTriple(str, ls, q) && |ls| <= 5
    ensures Proper(GapQuad(ls, [], q))
  {
  }

  ghost predicate TripleOf(str: string, a: seq<nat>)
  {
    exists ls, q :: IsTriple(str, ls, q) && |ls| <= 5 && a == Denoted(GapQuad(ls, [], q))
  }

  ghost predicate TooLong(str: string)
  {
    (exists ls, t :: IsNinth(str, ls, t)) || (exists ls, q :: IsTriple(str, ls, q) && |ls| == 6)
  }

  /** What basic_parse makes of every text. */
  lemma Outcome(str: string)
    ensures BasicParse(str) == Beyond ==> TooLong(str)
    ensures BasicParse(str).Parsed? && BasicParse(str).consumed == |str| ==>
              IsTextOf(str, BasicParse(str).groups) || TripleOf(str, BasicParse(str).groups)
  {
    hide BasicParse, Scanned, StateOf, TraceText, Possible, StopsHere, StopsBehind, QuadTexts, GroupTexts, Suffix,
      IsTextOf, TripleOf, TooLong;
    var tr, rest := Divided(str);
    if StopsBehind(tr, rest) {
      BehindGives(tr, rest);
    } else if Overruns(tr, rest) {
      OverrunIsTooLong(tr, rest);
    } else if rest == [] {
      assert str == TraceText(tr);
      EndGives(tr);
      if Ample(tr) {
        EndIsText(tr);
      }
    } else if Suffix(str, |TraceText(tr)|, StateOf(tr)) == None {
      OtherGives(tr, rest);
    } else {
      QuadOutcome(tr, rest);
    }
  }

  lemma EndIsText(tr: Trace)
    requires Possible(tr) && Ample(tr)
    ensures Proper(EndForm(tr)) && IsTextOf(TraceText(tr), Denoted(EndForm(tr)))
  {
    hide Possible, Proper, Written, Denoted, TraceText, EndForm;
    EndIsForm(tr);
  }

  lemma OverrunIsTooLong(tr: Trace, rest: string)
    requires Possible(tr) && Overruns(tr, rest)
    ensures TooLong(TraceText(tr) + rest) && BasicParse(TraceText(tr) + rest) == Beyond
  {
    hide HexValue, Joined, BasicParse;
    NoneJoined();
    NinthOverruns(TraceText(tr) + rest, tr.ls, rest);
  }

  lemma QuadOutcome(tr: Trace, rest: string)
    requires Possible(tr) && StopsHere(tr, rest)
    requires Suffix(TraceText(tr) + rest, |TraceText(tr)|, StateOf(tr)).Some?
    ensures var str := TraceText(tr) + rest;
            if BasicParse(str) == Beyond then TooLong(str)
            else BasicParse(str).Parsed?
                 && (IsTextOf(str, BasicParse(str).groups) || TripleOf(str, BasicParse(str).groups))
  {
    hide BasicParse, Suffix, StateOf, TraceText, StopsHere, PartText, GroupTexts, Written, Denoted, Proper,
      HexDigits, Joined, Dotted;
    var q := SuffixIsQuad(tr, rest);
    var str := TraceText(tr) + rest;
    if QuadRead(tr, rest, q) {
      QuadIsForm(tr, rest, q);
      QuadGives(tr, rest, q);
      assert IsTextOf(str, Denoted(QuadForm(tr, q)));
    } else {
      GapIsPossible(tr.ls);
      assert str == Joined(tr.ls) + ":::" + Dotted(q);
      TripleGives(tr.ls, q);
      assert IsTriple(str, tr.ls, q);
      if |tr.ls| <= 5 {
        TripleProper(str, tr.ls, q);
        assert TripleOf(str, Denoted(GapQuad(tr.ls, [], q)));
      }
    }
  }

  /** The value of every form, accepted whole. */
  lemma FormParses(f: Form)
    requires Proper(f)
    ensures BasicParse(Written(f)) == Parsed(|Written(f)|, Denoted(f))
  {
    var tr, rest := FormTaken(f);
  }

  /** A text is accepted as a if and only if it is a text of a, or empty, or a text of a with a colon
      too many in front of its quad. */
  lemma AcceptedExactly(str: string, a: seq<nat>)
    ensures WholeText(str) == Some(a) <==> IsTextOf(str, a) || TripleOf(str, a) || (str == [] && a == START.parts)
  {
    hide BasicParse, Written, Denoted, Proper, IsTriple;
    Outcome(str);
    if f :| Proper(f) && Written(f) == str && Denoted(f) == a {
      FormParses(f);
    }
    if TripleOf(str, a) {
      var ls, q :| IsTriple(str, ls, q) && |ls| <= 5 && (TripleProper(str, ls, q); a == Denoted(GapQuad(ls, [], q)));
      TripleParses(str, ls, q);
    }
    if str == [] {
      NothingParses();
    }
  }

  lemma TripleParses(str: string, ls: seq<string>, q: seq<string>)
    requires IsTriple(str, ls, q) && |ls| <= 6
    ensures BasicParse(str) == if |ls| == 6 then Beyond else Parsed(|str|, Denoted(GapQuad(ls, [], q)))
  {
    hide BasicParse, Denoted, Joined, Dotted, GroupTexts, QuadTexts;
    TripleGives(ls, q);
  }

  lemma NothingParses()
    ensures BasicParse([]) == NoAddress
  {
    StartIsNothing(NOTHING);
    EndGives(NOTHING);
  }

  /** basic_parse writes past its eight groups if and only if a ninth is begun behind "::", or ":::" and a quad
      follow six. */
  lemma BeyondExactly(str: string)
    ensures BasicParse(str) == Beyond <==> TooLong(str)
  {
    hide BasicParse, IsTriple, IsNinth;
    Outcome(str);
    if ls, t :| IsNinth(str, ls, t) {
      NinthOverruns(str, ls, t);
    }
    if ls, q :| IsTriple(str, ls, q) && |ls| == 6 {
      TripleParses(str, ls, q);
    }
  }

  lemma NinthOverruns(str: string, ls: seq<string>, t: string)
    requires IsNinth(str, ls, t)
    ensures BasicParse(str) == Beyond
  {
    hide Scanned, Joined, HexValue, GroupTexts, StateOf, TraceText, Possible;
    GapIsPossible(ls);
    TraceScans(Trace(ls, true, [], []), t);
    StopGives(Trace(ls, true, [], []), t);
  }

  /** ":::" never is part of a form. */
  lemma TripleIsNoForm(str: string, ls: seq<string>, q: seq<string>, f: Form)
    requires IsTriple(str, ls, q) && |ls| <= 6 && Proper(f)
    ensures Written(f) != str
  {
    hide Scanned, Joined, HexValue, GroupTexts, StateOf, TraceText, Possible, Proper, Written, Denoted, BasicParse,
      Dotted, PartText;
    var tr, rest := FormTaken(f);
    var tr', rest' := Trace(ls, true, [], []), ":" + Dotted(q);
    GapIsPossible(ls);
    ColonIsNoDigit();
    assert str == TraceText(tr') + rest';
    TraceScans(tr', rest');
    StopGives(tr', rest');
    TraceScans(tr, rest);
    StopGives(tr, rest);
    assert rest'[0] == ':';
  }

  // ---------------------------------------------------------------- texts that go on

  /** The groups stored when a colon has been passed in vain: one more, which is still all ones. */
  lemma BehindValue(tr: Trace)
    requires Possible(tr) && tr.cur != [] && Count(tr) < 7 && (tr.gap || Count(tr) == 6)
    ensures var tr' := Next(tr, 'f').(cur := "ffff");
            && Possible(tr') && Ample(tr') && TraceText(tr') == TraceText(tr) + ":ffff" && Proper(EndForm(tr'))
            && Spread(StateOf(tr).parts, StateOf(tr).cc, Count(tr) + 1) == Denoted(EndForm(tr'))
  {
    hide Closed, Joined, GroupTexts, Spread, Values, Denoted, Written, Proper, Filled, GroupValue, HexDigits;
    var tr1, tr' := Next(tr, 'f'), Next(tr, 'f').(cur := "ffff");
    FIsDigit();
    NextCompletes(tr, 'f');
    FfffIsGroup();
    assert TraceText(tr') == TraceText(tr) + ":ffff" by { assert ":" + "ffff" == ":ffff"; NextText(tr); }
    EndIsForm(tr');
    EndValue(tr');
    OnesStored(tr, tr');
  }

  lemma FIsDigit()
    ensures HexValue('f') == 15 && HexDigits("f")
  {
  }

  lemma NextText(tr: Trace)
    requires Possible(tr) && tr.cur != []
    ensures var tr' := Next(tr, 'f').(cur := "ffff"); TraceText(tr') == TraceText(tr) + ":" + "ffff"
  {
    hide Closed, Joined;
    ClosedMore(if tr.gap then tr.rs else tr.ls, tr.cur);
  }

  /** Group Count + 1 has not been touched. */
  lemma OnesStored(tr: Trace, tr': Trace)
    requires Possible(tr) && Possible(tr') && tr.cur != [] && Count(tr) < 7
    requires Count(tr') == Count(tr) + 1 && tr'.cur == "ffff" && tr'.gap == tr.gap && (tr.gap ==> |tr'.ls| == |tr.ls|)
    requires Complete(tr') == Complete(tr) + [GroupValue(tr.cur)]
    ensures StateOf(tr').parts == StateOf(tr).parts && StateOf(tr').cc == StateOf(tr).cc
    ensures LastGroup(StateOf(tr')) == Count(tr) + 1
  {
    hide Complete, GroupValue;
    FfffValue();
    var vs, v := Complete(tr), GroupValue(tr.cur);
    assert Filled(vs + [v]) == vs + [v] + START.parts[|vs| + 1..];
    assert StateOf(tr').parts == StateOf(tr).parts;
  }

  lemma FfffValue()
    ensures HexDigits("ffff") && GroupValue("ffff") == 0xFFFF
  {
    FfffIsGroup();
  }

  /** What basic_parse makes of a text that goes on behind the address. */
  predicate Partly(str: string)
  {
    BasicParse(str).Parsed? && BasicParse(str).consumed < |str|
  }

  /** The text goes on with a colon for which there is another group to follow. */
  ghost predicate InVain(str: string, n: nat)
    requires n < |str|
  {
    str[n] == ':' && n + 1 < |str| && exists a :: IsTextOf(str[..n] + ":ffff", a)
  }

  lemma HereIsText(tr: Trace, rest: string)
    requires Possible(tr) && StopsHere(tr, rest) && rest != []
    requires Suffix(TraceText(tr) + rest, |TraceText(tr)|, StateOf(tr)) == None
    ensures var str, n := TraceText(tr) + rest, |TraceText(tr)|;
            && str[..n] == TraceText(tr)
            && (BasicParse(str).Parsed? ==> BasicParse(str).consumed == n && IsTextOf(TraceText(tr), BasicParse(str).groups))
  {
    hide Scanned, TraceText, GroupTexts, HexDigits, Spread, Filled, Complete, GroupValue, HexValue, Suffix, IsTextOf,
      Denoted, Proper;
    TraceScans(tr, rest);
    StopGives(tr, rest);
    assert (TraceText(tr) + rest)[..|TraceText(tr)|] == TraceText(tr);
    if Ample(tr) {
      EndValue(tr);
      EndIsText(tr);
    }
  }

  lemma BehindIsText(tr: Trace, rest: string)
    requires Possible(tr) && StopsBehind(tr, rest)
    ensures var str, n := TraceText(tr) + rest, |TraceText(tr)|;
            && str[..n] == TraceText(tr) && str[n] == ':' && n + 1 < |str|
            && (BasicParse(str).Parsed? <==> tr.cur != [] && (tr.gap || Count(tr) == 6))
            && (BasicParse(str).Parsed? ==>
                  && BasicParse(str).consumed == n && IsTextOf(TraceText(tr) + ":ffff", BasicParse(str).groups)
                  && !IsTextOf(TraceText(tr), BasicParse(str).groups))
  {
    hide Scanned, TraceText, GroupTexts, HexDigits, Spread, Filled, Complete, GroupValue, HexValue, ParseQuad, IsTextOf,
      Denoted, Proper;
    var str, s := TraceText(tr) + rest, |TraceText(tr)|;
    TraceScans(tr, rest);
    StopGives(tr, rest);
    assert str[..s] == TraceText(tr);
    ColonFound(str, s, s);
    assert str[s + 1..] == rest[1..];
    QuadHead(rest[1..]);
    DigitIsHex(rest[1]);
    if tr.cur != [] && (tr.gap || Count(tr) == 6) {
      BehindValue(tr);
      EndIsText(Next(tr, 'f').(cur := "ffff"));
      VainDiffers(tr);
    }
  }

  /** A text that is left over from a form does not start with a colon. */
  lemma HereIsNotInVain(tr: Trace, rest: string)
    requires Possible(tr) && StopsHere(tr, rest) && rest != []
    ensures (TraceText(tr) + rest)[..|TraceText(tr)|] == TraceText(tr)
    ensures !InVain(TraceText(tr) + rest, |TraceText(tr)|)
  {
    hide Scanned, TraceText, GroupTexts, HexDigits, StateOf, Possible, Proper, Written, Denoted, BasicParse;
    var str, n := TraceText(tr) + rest, |TraceText(tr)|;
    assert str[..n] == TraceText(tr);
    if InVain(str, n) {
      var a :| IsTextOf(str[..n] + ":ffff", a);
      var f :| Proper(f) && Written(f) == TraceText(tr) + ":ffff" && Denoted(f) == a;
      var tr', rest' := FormTaken(f);
      ColonIsNoDigit();
      TraceScans(tr, ":ffff");
      StopGives(tr, ":ffff");
      TraceScans(tr', rest');
      StopGives(tr', rest');
    }
  }

  /** What basic_parse takes of a text that goes on is a text of the address it gives, unless the text
      goes on with a colon in vain: then the address has a group 0xFFFF that is not in the text. */
  lemma PartlyRead(str: string)
    requires Partly(str)
    ensures var n, a := BasicParse(str).consumed, BasicParse(str).groups;
            if InVain(str, n) then IsTextOf(str[..n] + ":ffff", a) && !IsTextOf(str[..n], a)
            else IsTextOf(str[..n], a)
  {
    hide BasicParse, Scanned, StateOf, TraceText, Possible, StopsHere, StopsBehind, QuadTexts, GroupTexts, Suffix,
      IsTextOf, TripleOf, InVain;
    var tr, rest := Divided(str);
    if StopsBehind(tr, rest) {
      BehindIsText(tr, rest);
      VainIs(str, |TraceText(tr)|, BasicParse(str).groups);
    } else if Overruns(tr, rest) {
      OverrunIsTooLong(tr, rest);
    } else if rest == [] {
      assert str == TraceText(tr);
      EndGives(tr);
    } else if Suffix(str, |TraceText(tr)|, StateOf(tr)) == None {
      HereIsText(tr, rest);
      HereIsNotInVain(tr, rest);
    } else {
      QuadIsWhole(tr, rest);
    }
  }

  lemma QuadIsWhole(tr: Trace, rest: string)
    requires Possible(tr) && StopsHere(tr, rest)
    requires Suffix(TraceText(tr) + rest, |TraceText(tr)|, StateOf(tr)).Some?
    ensures !Partly(TraceText(tr) + rest)
  {
    hide Scanned, TraceText, GroupTexts, HexDigits, Spread, Filled, Complete, HexValue, Suffix, StateOf;
    TraceScans(tr, rest);
    StopGives(tr, rest);
  }

  lemma VainIs(str: string, n: nat, a: seq<nat>)
    requires n + 1 < |str| && str[n] == ':' && IsTextOf(str[..n] + ":ffff", a)
    ensures InVain(str, n)
  {
    hide IsTextOf;
  }

  lemma {:induction false} ShiftedZeros(ls: seq<nat>, k: nat, rs: seq<nat>, j: nat)
    requires k > 0 && j < |rs|
    ensures ls + ZeroRun(k) + rs == ls + ZeroRun(k - 1) + rs + [0xFFFF] ==> rs[j] == 0
  {
    var a, b, i := ls + ZeroRun(k) + rs, ls + ZeroRun(k - 1) + rs + [0xFFFF], |ls| + k - 1 + j;
    assert b[i] == rs[j];
    if j == 0 {
      assert a[i] == ZeroRun(k)[k - 1];
    } else {
      ShiftedZeros(ls, k, rs, j - 1);
      assert a[i] == rs[j - 1];
    }
  }

  /** One more group behind a gap makes another address. */
  lemma ShiftDiffers(ls: seq<nat>, k: nat, rs: seq<nat>)
    requires k > 0 && rs != []
    ensures ls + ZeroRun(k) + rs != ls + ZeroRun(k - 1) + rs + [0xFFFF]
  {
    var a, b := ls + ZeroRun(k) + rs, ls + ZeroRun(k - 1) + rs + [0xFFFF];
    assert a[|a| - 1] == rs[|rs| - 1] && b[|a| - 1] == 0xFFFF;
    ShiftedZeros(ls, k, rs, |rs| - 1);
  }

  lemma VainDiffers(tr: Trace)
    requires Possible(tr) && tr.cur != [] && Count(tr) < 7 && (tr.gap || Count(tr) == 6)
    requires Possible(Next(tr, 'f').(cur := "ffff")) && Proper(EndForm(Next(tr, 'f').(cur := "ffff")))
    ensures !IsTextOf(TraceText(tr), Denoted(EndForm(Next(tr, 'f').(cur := "ffff"))))
  {
    hide TraceText, BasicParse, Written, Proper, GroupTexts, HexDigits, Values;
    var a := Denoted(EndForm(Next(tr, 'f').(cur := "ffff")));
    EndGives(tr);
    if tr.gap {
      EndIsForm(tr);
      GapDiffers(tr);
    }
    if f :| Proper(f) && Written(f) == TraceText(tr) && Denoted(f) == a {
      FormParses(f);
    }
  }

  lemma GapDiffers(tr: Trace)
    requires Possible(tr) && tr.cur != [] && Count(tr) < 7 && tr.gap
    requires Proper(EndForm(tr)) && Proper(EndForm(Next(tr, 'f').(cur := "ffff")))
    ensures Denoted(EndForm(tr)) != Denoted(EndForm(Next(tr, 'f').(cur := "ffff")))
  {
    hide Values, GroupValue, GroupText, HexDigits;
    var ls, rs := Values(tr.ls), tr.rs + [tr.cur];
    FfffIsGroup();
    ValuesMore(rs, "ffff");
    ShiftDiffers(ls, 8 - |tr.ls| - |rs|, Values(rs));
    assert ls + ZeroRun(7 - |tr.ls| - |rs|) + (Values(rs) + [0xFFFF]) == ls + ZeroRun(7 - |tr.ls| - |rs|) + Values(rs) + [0xFFFF];
  }

  // ---------------------------------------------------------------- round trips

  /** Every address comes back from its text, whichever run of zeros has been left out of it. */
  lemma ParseText(a: seq<nat>, zp: nat, zl: nat)
    requires Address(a) && zp + zl <= 8 && Zeros(a, zp, zp + zl)
    ensures BasicParse(Text(a, zp, zl)) == Parsed(|Text(a, zp, zl)|, a)
  {
    hide BasicParse, Text, Zeros, Proper, Written, Denoted;
    TextIsForm(a, zp, zl);
    var f :| Proper(f) && Written(f) == Text(a, zp, zl) && Denoted(f) == a;
    FormParses(f);
  }

  /** No two addresses have the same text, and no text is a text of two addresses. */
  lemma TextIsInjective(str: string, a: seq<nat>, a': seq<nat>)
    requires IsTextOf(str, a) && IsTextOf(str, a')
    ensures a == a' && WholeText(str) == Some(a)
  {
    hide WholeText, IsTextOf, TripleOf;
    AcceptedExactly(str, a);
    AcceptedExactly(str, a');
  }

  // ---------------------------------------------------------------- texts that are no forms

  const SIX := ["1", "2", "3", "4", "5", "6"]

  lemma OneMore(gs: seq<string>, s: string, c: char, gs': seq<string>, s': string)
    requires GroupTexts(gs) && Closed(gs) == s && HexValue(c) >= 0
    requires gs' == gs + [[c]] && s' == s + [c, ':']
    ensures GroupTexts(gs') && Closed(gs') == s' && Joined(gs') == s + [c]
  {
    hide HexValue;
    assert [c, ':'] == [c] + ":";
    ClosedMore(gs, [c]);
    ValuesMore(gs, [c]);
  }

  lemma SixJoined()
    ensures GroupTexts(SIX) && Joined(SIX) == "1:2:3:4:5:6"
    ensures GroupTexts(SIX + ["7"]) && Joined(SIX + ["7"]) == "1:2:3:4:5:6:7"
  {
    hide Closed, Joined, GroupTexts;
    NoneJoined();
    assert GroupTexts([]) by { HexesAreGroups([]); }
    OneMore([], [], '1', ["1"], "1:");
    OneMore(["1"], "1:", '2', ["1", "2"], "1:2:");
    OneMore(["1", "2"], "1:2:", '3', ["1", "2", "3"], "1:2:3:");
    OneMore(["1", "2", "3"], "1:2:3:", '4', ["1", "2", "3", "4"], "1:2:3:4:");
    OneMore(["1", "2", "3", "4"], "1:2:3:4:", '5', ["1", "2", "3", "4", "5"], "1:2:3:4:5:");
    OneMore(["1", "2", "3", "4", "5"], "1:2:3:4:5:", '6', SIX, "1:2:3:4:5:6:");
    OneMore(SIX, "1:2:3:4:5:6:", '7', SIX + ["7"], "1:2:3:4:5:6:7:");
  }

  lemma SmallQuad()
    ensures var q := ["1", "2", "3", "4"]; QuadTexts(q) && Dotted(q) == "1.2.3.4" && QuadGroups(q) == [0x102, 0x304]
  {
    OneDigit('1');
    OneDigit('2');
    OneDigit('3');
    OneDigit('4');
  }

  lemma OneDigit(c: char)
    requires IsDigit(c)
    ensures PartText([c]) && DecValue([c]) == HexValue(c)
  {
    assert [c][..0] == [] && Numeric.Value([], 10) == 0;
    assert [c][|[c]| - 1] == c;
  }

  /** Two texts that take basic_parse beyond its groups. */
  lemma BeyondAt()
    ensures BasicParse("1:2:3:4:5:6:7::8") == Beyond
    ensures BasicParse("1:2:3:4:5:6:::1.2.3.4") == Beyond
  {
    hide BasicParse, Joined, GroupText, Dotted, PartText, QuadGroups;
    SixJoined();
    SmallQuad();
    var q := ["1", "2", "3", "4"];
    assert "1:2:3:4:5:6:7" + "::" + "8" == "1:2:3:4:5:6:7::8";
    NinthOverruns("1:2:3:4:5:6:7::8", SIX + ["7"], "8");
    assert "1:2:3:4:5:6" + ":::" + "1.2.3.4" == "1:2:3:4:5:6:::1.2.3.4";
    TripleParses("1:2:3:4:5:6:::1.2.3.4", SIX, q);
  }

  lemma SevenValues()
    ensures GroupTexts(SIX + ["7"]) && Values(SIX + ["7"]) == [1, 2, 3, 4, 5, 6, 7]
  {
    hide GroupTexts, Values, Closed, Joined;
    SixJoined();
    OneDigitValue('1', 1);
    OneDigitValue('2', 2);
    OneDigitValue('3', 3);
    OneDigitValue('4', 4);
    OneDigitValue('5', 5);
    OneDigitValue('6', 6);
    OneDigitValue('7', 7);
    var vs := Values(SIX + ["7"]);
    assert |vs| == 7 && forall i :: 0 <= i < 7 ==> vs[i] == i + 1;
  }

  lemma OneDigitValue(c: char, v: nat)
    requires HexValue(c) == v
    ensures HexDigits([c]) && GroupValue([c]) == v
  {
    assert [c][..0] == [] && Numeric.Value([], 16) == 0;
    assert [c][|[c]| - 1] == c;
  }

  /** Behind seven groups, a colon that no group follows is not taken, but the eighth group is all
      ones. */
  lemma PartlyAt()
    ensures BasicParse("1:2:3:4:5:6:7:x") == Parsed(13, [1, 2, 3, 4, 5, 6, 7, 0xFFFF])
  {
    hide Joined, Closed, GroupText, Values, HexDigits, BasicParse, IsTextOf, GroupValue, HexValue;
    var tr, gs := Trace(SIX, false, [], "7"), SIX + ["7"];
    SixJoined();
    SevenValues();
    SevenIsPossible(tr);
    assert TraceText(tr) + ":x" == "1:2:3:4:5:6:7:x";
    BehindIsText(tr, ":x");
    FfffIsGroup();
    ClosedMore(SIX, "7");
    ClosedMore(gs, "ffff");
    ValuesMore(gs, "ffff");
    FormIsText(Groups(gs + ["ffff"]));
    assert Values(gs + ["ffff"]) == [1, 2, 3, 4, 5, 6, 7, 0xFFFF];
    assert TraceText(tr) + ":ffff" == Joined(gs + ["ffff"]);
    TextIsInjective(TraceText(tr) + ":ffff", BasicParse("1:2:3:4:5:6:7:x").groups, [1, 2, 3, 4, 5, 6, 7, 0xFFFF]);
  }

  lemma SevenIsPossible(tr: Trace)
    requires tr == Trace(SIX, false, [], "7") && GroupTexts(SIX) && Joined(SIX + ["7"]) == "1:2:3:4:5:6:7"
    ensures Possible(tr) && StopsBehind(tr, ":x") && TraceText(tr) == "1:2:3:4:5:6:7"
  {
    hide GroupText, Closed, Joined;
    ClosedMore(SIX, "7");
    assert ":x"[0] == ':' && ":x"[1] == 'x' && |SIX| == 6;
  }

  lemma FormIsText(f: Form)
    requires Proper(f)
    ensures IsTextOf(Written(f), Denoted(f))
  {
  }

  /** Two texts that are accepted although no address is written so. */
  lemma AcceptedAt(f: Form)
    requires Proper(f)
    ensures WholeText(":::1.2.3.4") == Some([0, 0, 0, 0, 0, 0, 0x102, 0x304]) && Written(f) != ":::1.2.3.4"
    ensures WholeText("") == Some(START.parts) && Written(f) != ""
  {
    hide BasicParse, Joined, GroupText, Dotted, PartText, QuadGroups, Written, Proper;
    var q := ["1", "2", "3", "4"];
    SmallQuad();
    NoneJoined();
    assert [] + ":::" + "1.2.3.4" == ":::1.2.3.4";
    TripleParses(":::1.2.3.4", [], q);
    assert Values([]) == [] && ZeroRun(6) == [0, 0, 0, 0, 0, 0];
    assert [] + [0, 0, 0, 0, 0, 0] + [] + [0x102, 0x304] == [0, 0, 0, 0, 0, 0, 0x102, 0x304];
    TripleIsNoForm(":::1.2.3.4", [], q, f);
    NothingParses();
    FormParses(f);
  }
}
