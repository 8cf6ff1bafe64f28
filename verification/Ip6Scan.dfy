/** How far the scanner of IP6AddressArg::basic_parse gets in a text, and what it has stored by then. */
module Ip6Scan {
  import opened Common
  import opened Ip6Forms
  import opened Ip6Text
  import Numeric

  // ---------------------------------------------------------------- what the scanner has read

  /** Text that has been scanned: groups with their colons, "::" if it came, groups with their colons,
      and the digits of the group being read. */
  datatype Trace = Trace(ls: seq<string>, gap: bool, rs: seq<string>, cur: string)

  const NOTHING := Trace([], false, [], [])

  function Count(tr: Trace): (n: nat)
  {
    |tr.ls| + (if tr.gap then 1 else 0) + |tr.rs|
  }

  /** What the scanner can have read: a single colon is always followed by a digit. */
  predicate Possible(tr: Trace)
  {
    && GroupTexts(tr.ls) && GroupTexts(tr.rs) && HexDigits(tr.cur) && |tr.cur| <= 4
    && (!tr.gap ==> tr.rs == [])
    && (tr.cur == [] ==> (if tr.gap then tr.rs else tr.ls) == [])
    && Count(tr) <= 8 && (Count(tr) == 8 ==> tr.gap && tr.cur == [])
  }

  function TraceText(tr: Trace): (s: string)
  {
    (if tr.gap then Joined(tr.ls) + "::" + Closed(tr.rs) else Closed(tr.ls)) + tr.cur
  }

  /** The groups that are complete, with a zero for the "::". */
  function Complete(tr: Trace): (vs: seq<nat>)
    requires Possible(tr)
    ensures |vs| == Count(tr)
  {
    if tr.gap then Values(tr.ls) + [0] + Values(tr.rs) else Values(tr.ls)
  }

  /** vs in front, and the eight groups otherwise as they are to begin with. */
  function Filled(vs: seq<nat>): (parts: seq<nat>)
    requires |vs| <= 8
    ensures |parts| == 8 && parts[..|vs|] == vs
  {
    vs + START.parts[|vs|..]
  }

  lemma FilledMore(vs: seq<nat>, v: nat)
    requires |vs| < 8
    ensures Filled(vs + [v]) == Set(Filled(vs), |vs|, v)
  {
  }

  /** The scanner in front of the digits of a group. */
  function Base(tr: Trace): (st: State)
    requires Possible(tr)
    ensures Sound(st)
  {
    State(Count(tr), 0, if tr.gap then |tr.ls| else -1, Filled(Complete(tr)))
  }

  /** The scanner in the middle of a group, after the digits cur of it. */
  function Reading(st: State, cur: string): (st': State)
    requires Sound(st) && HexDigits(cur) && |cur| <= 4 && (cur != [] ==> st.d < 8)
    ensures Sound(st') || st.p != 0
  {
    if cur == [] then st else st.(parts := Set(st.parts, st.d, GroupValue(cur)), p := |cur|)
  }

  function StateOf(tr: Trace): (st: State)
    requires Possible(tr)
    ensures Sound(st)
  {
    Reading(Base(tr), tr.cur)
  }

  // ---------------------------------------------------------------- the scanner's moves

  function More(tr: Trace, c: char): (tr': Trace)
  {
    tr.(cur := tr.cur + [c])
  }

  function Next(tr: Trace, c: char): (tr': Trace)
  {
    if tr.gap then tr.(rs := tr.rs + [tr.cur], cur := [c]) else tr.(ls := tr.ls + [tr.cur], cur := [c])
  }

  function Opened(tr: Trace): (tr': Trace)
  {
    Trace(if tr.cur == [] then tr.ls else tr.ls + [tr.cur], true, [], [])
  }

  lemma SetTwice(parts: seq<nat>, d: nat, v: nat, w: nat)
    requires d < |parts|
    ensures Set(Set(parts, d, v), d, w) == Set(parts, d, w)
  {
  }

  lemma DigitAdds(cur: string, c: char)
    requires HexDigits(cur) && |cur| < 4 && HexValue(c) >= 0
    ensures HexDigits(cur + [c])
    ensures GroupValue(cur + [c]) == (if cur != [] then GroupValue(cur) * 16 else 0) + HexValue(c)
  {
    hide HexValue;
    assert (cur + [c])[..|cur|] == cur;
    assert Numeric.Value([], 16) == 0;
  }

  /** A digit of a group that has room for it. */
  lemma DigitReads(st: State, cur: string, c: char, rest: string)
    requires Sound(st) && st.p == 0 && st.d < 8 && HexDigits(cur) && |cur| < 4 && HexValue(c) >= 0
    ensures HexDigits(cur + [c])
    ensures Scanned([c] + rest, Reading(st, cur)) == Scanned(rest, Reading(st, cur + [c]))
  {
    hide Scanned, HexValue, GroupValue, HexDigits, Set;
    DigitAdds(cur, c);
    DigitScans(c, rest, Reading(st, cur));
    var v := GroupValue(cur + [c]);
    if cur != [] {
      SetTwice(st.parts, st.d, GroupValue(cur), v);
      assert Set(st.parts, st.d, GroupValue(cur))[st.d] == GroupValue(cur) by { SetAt(st.parts, st.d, GroupValue(cur)); }
    }
    assert Shifted(Reading(st, cur), HexValue(c)) == v;
  }

  lemma SetAt(parts: seq<nat>, d: nat, v: nat)
    requires d < |parts|
    ensures Set(parts, d, v)[d] == v
  {
  }

  lemma MoreScans(tr: Trace, c: char, rest: string)
    requires Possible(tr) && Count(tr) < 8 && |tr.cur| < 4 && HexValue(c) >= 0
    ensures Possible(More(tr, c)) && TraceText(More(tr, c)) == TraceText(tr) + [c]
    ensures Scanned([c] + rest, StateOf(tr)) == Scanned(rest, StateOf(More(tr, c)))
  {
    hide Scanned, HexValue, Joined, Closed, Filled, GroupTexts, HexDigits;
    DigitReads(Base(tr), tr.cur, c, rest);
    assert Complete(More(tr, c)) == Complete(tr);
  }

  /** A single colon and the digit behind it. */
  lemma NextScans(tr: Trace, c: char, rest: string)
    requires Possible(tr) && Count(tr) < 7 && tr.cur != [] && HexValue(c) >= 0
    ensures Possible(Next(tr, c)) && TraceText(Next(tr, c)) == TraceText(tr) + ":" + [c]
    ensures Scanned(":" + [c] + rest, StateOf(tr)) == Scanned(rest, StateOf(Next(tr, c)))
  {
    hide Scanned, HexValue, Filled, GroupTexts, Set, GroupValue, HexDigits, Complete, TraceText;
    NextCompletes(tr, c);
    var vs, v := Complete(tr), GroupValue(tr.cur);
    var st := State(Count(tr) + 1, 0, if tr.gap then |tr.ls| else -1, Filled(vs + [v]));
    FilledMore(vs, v);
    assert ":" + [c] + rest == ":" + ([c] + rest);
    ColonScans([c] + rest, StateOf(tr));
    NoDigits();
    DigitReads(st, [], c, rest);
    assert [] + [c] == [c];
  }

  lemma NoDigits()
    ensures HexDigits([])
  {
  }

  lemma NextCompletes(tr: Trace, c: char)
    requires Possible(tr) && Count(tr) < 7 && tr.cur != [] && HexValue(c) >= 0
    ensures Possible(Next(tr, c)) && TraceText(Next(tr, c)) == TraceText(tr) + ":" + [c]
    ensures Complete(Next(tr, c)) == Complete(tr) + [GroupValue(tr.cur)]
  {
    hide HexValue, Joined, GroupValue, Closed, Values;
    var gs := if tr.gap then tr.rs else tr.ls;
    ClosedMore(gs, tr.cur);
    ValuesMore(gs, tr.cur);
  }

  /** "::". */
  lemma OpenScans(tr: Trace, rest: string)
    requires Possible(tr) && Count(tr) < 7 && !tr.gap && (tr.cur != [] || tr.ls == [])
    ensures Possible(Opened(tr)) && TraceText(Opened(tr)) == TraceText(tr) + "::"
    ensures Scanned("::" + rest, StateOf(tr)) == Scanned(rest, StateOf(Opened(tr)))
  {
    hide Scanned, HexValue, Filled, GroupTexts, Set, Joined, Closed, Values;
    OpenCompletes(tr);
    DoubleColonScans(rest, StateOf(tr));
    var vs := Complete(tr);
    if tr.cur == [] {
      FilledMore(vs, 0);
    } else {
      FilledMore(vs, GroupValue(tr.cur));
      FilledMore(vs + [GroupValue(tr.cur)], 0);
    }
  }

  lemma OpenCompletes(tr: Trace)
    requires Possible(tr) && Count(tr) < 7 && !tr.gap && (tr.cur != [] || tr.ls == [])
    ensures Possible(Opened(tr)) && TraceText(Opened(tr)) == TraceText(tr) + "::"
    ensures Complete(Opened(tr)) == Complete(tr) + (if tr.cur == [] then [] else [GroupValue(tr.cur)]) + [0]
  {
    hide HexValue, GroupValue, Values;
    assert Values([]) == [];
    if tr.cur != [] {
      ClosedMore(tr.ls, tr.cur);
      ValuesMore(tr.ls, tr.cur);
    }
  }

  // ---------------------------------------------------------------- the whole scan

  /** The scanner gets to the end of every text it can have read. */
  lemma {:induction false} TraceScans(tr: Trace, rest: string)
    requires Possible(tr)
    ensures Scanned(TraceText(tr) + rest, START) == Scanned(rest, StateOf(tr))
    decreases |tr.ls| + |tr.rs|, tr.gap, |tr.cur|
  {
    hide Scanned, HexValue, Complete, Base, Joined, Closed, Filled, HexDigits, GroupTexts;
    if |tr.cur| > 1 {
      PeelDigit(tr, rest);
    } else if |tr.cur| == 1 && Count(tr) > 0 && !(tr.gap && tr.rs == []) {
      PeelGroup(tr, rest);
    } else if |tr.cur| == 1 {
      PeelDigit(tr, rest);
    } else if tr.gap {
      PeelGap(tr, rest);
    } else {
      StartIsNothing(tr);
      assert TraceText(tr) + rest == rest;
    }
  }

  lemma StartIsNothing(tr: Trace)
    requires Possible(tr) && tr.cur == [] && !tr.gap
    ensures StateOf(tr) == START && TraceText(tr) == []
  {
  }

  lemma PeelDigit(tr: Trace, rest: string)
    requires Possible(tr) && tr.cur != [] && (|tr.cur| > 1 || (if tr.gap then tr.rs else tr.ls) == [])
    ensures Scanned(TraceText(tr) + rest, START) == Scanned(rest, StateOf(tr))
    decreases |tr.ls| + |tr.rs|, tr.gap, |tr.cur|, 0
  {
    hide Scanned, HexValue, StateOf, TraceText, GroupTexts;
    var n := |tr.cur| - 1;
    var c, tr0 := tr.cur[n], tr.(cur := tr.cur[..n]);
    assert tr0.cur + [c] == tr.cur;
    MoreScans(tr0, c, rest);
    TraceScans(tr0, [c] + rest);
    assert TraceText(tr) + rest == TraceText(tr0) + ([c] + rest);
  }

  lemma PeelGroup(tr: Trace, rest: string)
    requires Possible(tr) && |tr.cur| == 1 && (if tr.gap then tr.rs else tr.ls) != []
    ensures Scanned(TraceText(tr) + rest, START) == Scanned(rest, StateOf(tr))
    decreases |tr.ls| + |tr.rs|, tr.gap, |tr.cur|, 0
  {
    hide Scanned, HexValue, StateOf, TraceText;
    var c, gs := tr.cur[0], if tr.gap then tr.rs else tr.ls;
    var n := |gs| - 1;
    var tr0 := if tr.gap then tr.(rs := gs[..n], cur := gs[n]) else tr.(ls := gs[..n], cur := gs[n]);
    assert gs[..n] + [gs[n]] == gs && [c] == tr.cur;
    NextScans(tr0, c, rest);
    TraceScans(tr0, ":" + [c] + rest);
    assert TraceText(tr) + rest == TraceText(tr0) + (":" + [c] + rest);
  }

  lemma PeelGap(tr: Trace, rest: string)
    requires Possible(tr) && tr.cur == [] && tr.gap
    ensures Scanned(TraceText(tr) + rest, START) == Scanned(rest, StateOf(tr))
    decreases |tr.ls| + |tr.rs|, tr.gap, |tr.cur|, 0
  {
    hide Scanned, HexValue, StateOf, TraceText;
    var n := |tr.ls| - 1;
    var tr0 := if tr.ls == [] then NOTHING else Trace(tr.ls[..n], false, [], tr.ls[n]);
    assert tr.ls != [] ==> tr.ls[..n] + [tr.ls[n]] == tr.ls;
    OpenScans(tr0, rest);
    TraceScans(tr0, "::" + rest);
    assert TraceText(tr) + rest == TraceText(tr0) + ("::" + rest);
  }

  /** A colon in front of which there is something to close, and behind which there is more. */
  predicate AtColon(tr: Trace, rest: string)
  {
    |rest| > 1 && rest[0] == ':' && Count(tr) < 7 && (tr.cur != [] || Count(tr) == 0)
  }

  /** Scanning stops in front of rest. */
  predicate StopsHere(tr: Trace, rest: string)
  {
    rest == [] || (if HexValue(rest[0]) >= 0 then |tr.cur| == 4 else !AtColon(tr, rest))
  }

  /** Scanning stops at a colon that is not followed by what it should be. */
  predicate StopsBehind(tr: Trace, rest: string)
  {
    AtColon(tr, rest) && (rest[1] == ':' ==> tr.gap) && (HexValue(rest[1]) < 0 || tr.cur == [])
  }

  predicate Overruns(tr: Trace, rest: string)
  {
    rest != [] && HexValue(rest[0]) >= 0 && Count(tr) == 8
  }

  lemma StopGives(tr: Trace, rest: string)
    requires Possible(tr)
    ensures StopsHere(tr, rest) ==> Scanned(rest, StateOf(tr)) == Stop(rest, StateOf(tr))
    ensures StopsBehind(tr, rest) ==> Scanned(rest, StateOf(tr)) == Stop(rest, StateOf(tr).(d := Count(tr) + 1))
    ensures Overruns(tr, rest) ==> Scanned(rest, StateOf(tr)) == Overrun
  {
    hide Scanned, HexValue, Filled, Complete, GroupTexts, HexDigits;
    var st := StateOf(tr);
    if rest == [] {
      NothingScans(st);
    } else {
      assert ColonGoesOn(rest, st) == AtColon(tr, rest);
      if StopsHere(tr, rest) {
        ScanStops(rest, st);
      }
      if StopsBehind(tr, rest) {
        ScanStopsBehind(rest, st);
      }
      if Overruns(tr, rest) {
        ScanOverruns(rest, st);
      }
    }
  }

  /** The scanner only moves over text that it can have read. */
  lemma {:induction false} ScanEnds(t: string, tr: Trace) returns (tr': Trace, rest: string)
    requires Possible(tr)
    ensures Possible(tr') && TraceText(tr) + t == TraceText(tr') + rest
    ensures StopsHere(tr', rest) || StopsBehind(tr', rest) || Overruns(tr', rest)
    decreases |t|
  {
    hide HexValue, Scanned, StateOf, TraceText, GroupTexts, HexDigits;
    if t != [] && HexValue(t[0]) >= 0 && |tr.cur| < 4 && Count(tr) < 8 {
      MoreScans(tr, t[0], t[1..]);
      tr', rest := ScanEnds(t[1..], More(tr, t[0]));
      assert t == [t[0]] + t[1..];
    } else if t != [] && HexValue(t[0]) < 0 && AtColon(tr, t) && t[1] == ':' && !tr.gap {
      OpenScans(tr, t[2..]);
      tr', rest := ScanEnds(t[2..], Opened(tr));
      assert t == "::" + t[2..];
    } else if t != [] && HexValue(t[0]) < 0 && AtColon(tr, t) && HexValue(t[1]) >= 0 && tr.cur != [] {
      NextScans(tr, t[1], t[2..]);
      tr', rest := ScanEnds(t[2..], Next(tr, t[1]));
      assert t == ":" + [t[1]] + t[2..];
    } else {
      tr', rest := tr, t;
    }
  }

  /** Every text divides into what the scanner reads and what it stops at. */
  lemma Divided(str: string) returns (tr: Trace, rest: string)
    ensures Possible(tr) && str == TraceText(tr) + rest
    ensures StopsHere(tr, rest) || StopsBehind(tr, rest) || Overruns(tr, rest)
    ensures Scanned(str, START) == Scanned(rest, StateOf(tr))
  {
    hide Scanned, StopsHere, StopsBehind, Overruns;
    tr, rest := ScanEnds(str, NOTHING);
    StartIsNothing(NOTHING);
    assert [] + str == str;
    TraceScans(tr, rest);
  }
}
