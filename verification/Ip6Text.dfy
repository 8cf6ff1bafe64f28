/** IPv6 addresses as text: IP6Address::unparse writes them in the style of section 4 of RFC 5952,
    and IP6AddressArg::basic_parse reads the forms of section 2.2 of RFC 4291. */
module Ip6Text {
  import opened Common
  import Numeric

  /** An address: eight groups of sixteen bits, most significant first. */
  ghost predicate Address(a: seq<nat>)
  {
    |a| == 8 && forall i :: 0 <= i < 8 ==> a[i] < 0x1_0000
  }

  // ---------------------------------------------------------------- numerals

  predicate IsDigit(c: char)
  {
    '0' <= c <= '9'
  }

  /** printf's %x. */
  function Hex(v: nat): (s: string)
  {
    Numeric.Numeral(v, 16, false)
  }

  /** printf's %d. */
  function Dec(b: nat): (s: string)
  {
    Numeric.Numeral(b, 10, false)
  }

  // ---------------------------------------------------------------- dotted quads

  function Quad(b: seq<nat>): (s: string)
    requires |b| == 4 && forall i :: 0 <= i < 4 ==> b[i] < 256
  {
    Dec(b[0]) + "." + Dec(b[1]) + "." + Dec(b[2]) + "." + Dec(b[3])
  }

  /** Further digits of a part, which is given up on once it exceeds 255. */
  function MorePart(t: string, part: nat): (r: (nat, string))
    ensures |r.1| <= |t|
    decreases |t|
  {
    if t != [] && IsDigit(t[0]) && part <= 255 then MorePart(t[1..], part * 10 + (t[0] as int - '0' as int))
    else (part, t)
  }

  /** IPAddressArg::basic_parse from its d-th part on: the parts read, and what is left. */
  function Parts(t: string, d: nat): (r: (seq<nat>, string))
    requires d <= 4
    decreases 4 - d
  {
    if d < 4 && t != [] && (d == 0 || t[0] == '.') then
      var u := if d == 0 then t else t[1..];
      if u == [] || !IsDigit(u[0]) then ([], t)
      else
        var (part, rest) := MorePart(u[1..], u[0] as int - '0' as int);
        if part > 255 then ([], t)
        else
          var (more, rest') := Parts(rest, d + 1);
          ([part] + more, rest')
    else ([], t)
  }

  /** IPAddressArg::parse: all four parts and nothing else. */
  function ParseQuad(t: string): (r: Option<seq<nat>>)
    ensures r.Some? ==> |r.value| == 4
  {
    var (parts, rest) := Parts(t, 0);
    if rest == [] && |parts| == 4 then Some(parts) else None
  }

  // ---------------------------------------------------------------- unparse

  /** Groups separated by colons. */
  function Join(gs: seq<nat>): (s: string)
  {
    if gs == [] then [] else if |gs| == 1 then Hex(gs[0]) else Hex(gs[0]) + ":" + Join(gs[1..])
  }

  lemma JoinOfNone()
    ensures Join([]) == []
  {
  }

  predicate Zeros(a: seq<nat>, lo: nat, hi: nat)
    requires hi <= |a|
  {
    forall i :: lo <= i < hi ==> a[i] == 0
  }

  function Bytes(a: seq<nat>): (b: seq<nat>)
    requires Address(a)
    ensures |b| == 4 && forall i :: 0 <= i < 4 ==> b[i] < 256
  {
    [a[6] / 256, a[6] % 256, a[7] / 256, a[7] % 256]
  }

  /** The text of address a, given a run of zero groups to be left out if it is longer than one. */
  function Text(a: seq<nat>, zp: nat, zl: nat): (s: string)
    requires Address(a) && zp + zl <= 8
  {
    if Zeros(a, 0, 8) then "::"
    else if Zeros(a, 0, 6) then "::" + Quad(Bytes(a))
    else if Zeros(a, 0, 5) && a[5] == 0xFFFF then "::ffff:" + Quad(Bytes(a))
    else if zl > 1 then Join(a[..zp]) + "::" + Join(a[zp + zl..])
    else Join(a)
  }

  // ---------------------------------------------------------------- basic_parse

  /** The scanner's variables: the group being read, how many of its digits have been, the group
      "::" stands in (or -1), and the groups. */
  datatype State = State(d: nat, p: nat, cc: int, parts: seq<nat>)

  /** Where scanning stops. Overrun: a ninth group would have been written. */
  datatype Scan = Stop(rest: string, st: State) | Overrun

  const START := State(0, 0, -1, [0xFFFF, 0xFFFF, 0xFFFF, 0xFFFF, 0xFFFF, 0xFFFF, 0xFFFF, 0xFFFF])

  function Set(parts: seq<nat>, i: nat, v: nat): (parts': seq<nat>)
    requires i < |parts|
    ensures |parts'| == |parts|
  {
    parts[i := v]
  }

  /** What the scanner keeps: it reaches a ninth group only right behind a "::" in the eighth. */
  ghost predicate Sound(st: State)
  {
    && |st.parts| == 8 && st.d <= 8 && -1 <= st.cc
    && (st.cc >= 0 ==> st.cc < st.d)
    && (st.d == 8 ==> st.p == 0 && st.cc >= 0)
  }

  /** Group d with one more hex digit, as a uint16_t. */
  function Shifted(st: State, digit: nat): (v: nat)
    requires st.d < |st.parts|
  {
    ((if st.p != 0 then st.parts[st.d] * 16 else 0) + digit) % 0x1_0000
  }

  /** The scanning loop of basic_parse. */
  function Scanned(t: string, st: State): (r: Scan)
    requires Sound(st)
    ensures r.Stop? ==> |r.rest| <= |t| && Sound(r.st)
    decreases |t|
  {
    if t == [] then Stop(t, st)
    else
      var digit := HexValue(t[0]);
      if digit >= 0 then
        if st.p == 4 then Stop(t, st)
        else if st.d >= 8 then Overrun
        else
          Scanned(t[1..], st.(parts := Set(st.parts, st.d, Shifted(st, digit)), p := st.p + 1))
      else if t[0] == ':' && |t| > 1 && st.d < 7 && (st.p != 0 || st.d == 0) then
        if t[1] == ':' && st.cc < 0 then
          var d := if st.p != 0 then st.d + 1 else st.d;
          Scanned(t[2..], State(d + 1, 0, d, Set(st.parts, d, 0)))
        else if HexValue(t[1]) < 0 || st.p == 0 then Stop(t, st.(d := st.d + 1))
        else Scanned(t[1..], st.(p := 0, d := st.d + 1))
      else Stop(t, st)
  }

  /** How far back from position s the last colon is; 0 if there is none. */
  function BackToColon(str: string, s: nat): (t: nat)
    requires s < |str|
    ensures t <= s
  {
    if s == 0 || str[s] == ':' then s else BackToColon(str, s - 1)
  }

  function ZeroRun(n: nat): (z: seq<nat>)
    ensures |z| == n && forall i :: 0 <= i < n ==> z[i] == 0
  {
    seq(n, _ => 0)
  }

  /** The groups with the "::" expanded: those behind it moved to the end, zeros in between. */
  function Spread(parts: seq<nat>, cc: int, d: int): (a: seq<nat>)
    requires |parts| == 8 && -1 <= cc <= d <= 7
  {
    if cc >= 0 && d != 7 then
      parts[..cc + 1] + ZeroRun(7 - d) + parts[cc + 1..d + 1]
    else parts
  }

  datatype Parse = Parsed(consumed: nat, groups: seq<nat>) | NoAddress | Beyond

  /** The number of the last group read. */
  function LastGroup(st: State): (d: int)
  {
    if st.p == 0 then st.d - 1 else st.d
  }

  /** The dotted quad at the end of str, looked for when scanning stopped at s in a place for one. */
  function Suffix(str: string, s: nat, st: State): (quad: Option<seq<nat>>)
    requires s <= |str|
    ensures quad.Some? ==> |quad.value| == 4 && (LastGroup(st) == 6 || (LastGroup(st) < 6 && st.cc >= 0))
  {
    var d := LastGroup(st);
    if (d == 6 || (d < 6 && st.cc >= 0)) && s < |str| && BackToColon(str, s) != 0
    then ParseQuad(str[BackToColon(str, s) + 1..]) else None
  }

  /** basic_parse without the fallback to named addresses: how much of str it takes, and the groups
      it stores. */
  function BasicParse(str: string): (r: Parse)
  {
    match Scanned(str, START)
    case Overrun => Beyond
    case Stop(rest, st) =>
      var s, d := |str| - |rest|, LastGroup(st);
      match Suffix(str, s, st)
      case None => Ended(st.parts, st.cc, d, s)
      case Some(q) =>
        var dd := if d == st.cc then d + 1 else d;
        if dd > 6 then Beyond
        else Ended(Set(Set(st.parts, dd, q[0] * 256 + q[1]), dd + 1, q[2] * 256 + q[3]), st.cc, dd + 1, |str|)
  }

  function Ended(parts: seq<nat>, cc: int, d: int, s: nat): (r: Parse)
    requires |parts| == 8 && -1 <= cc <= d <= 7
  {
    if d != 7 && cc < 0 then NoAddress else Parsed(s, Spread(parts, cc, d))
  }

  /** IP6AddressArg::parse, names aside: basic_parse must use up the whole text. */
  function WholeText(str: string): (r: Option<seq<nat>>)
  {
    match BasicParse(str)
    case Parsed(consumed, groups) => if consumed == |str| then Some(groups) else None
    case NoAddress => if str == [] then Some(START.parts) else None
    case Beyond => None
  }

  // ---------------------------------------------------------------- single steps of the scanner

  lemma DigitScans(c: char, rest: string, st: State)
    requires Sound(st) && st.d < 8 && st.p < 4 && HexValue(c) >= 0
    ensures Scanned([c] + rest, st)
            == Scanned(rest, st.(parts := Set(st.parts, st.d, Shifted(st, HexValue(c))), p := st.p + 1))
  {
    hide Shifted, HexValue, Set;
    assert ([c] + rest)[1..] == rest;
  }

  lemma ColonScans(rest: string, st: State)
    requires Sound(st) && st.d < 7 && st.p != 0 && rest != [] && HexValue(rest[0]) >= 0
    ensures Scanned(":" + rest, st) == Scanned(rest, st.(p := 0, d := st.d + 1))
  {
    assert (":" + rest)[1..] == rest;
  }

  lemma DoubleColonScans(rest: string, st: State)
    requires Sound(st) && st.d < 7 && st.cc < 0 && (st.p != 0 || st.d == 0)
    ensures var d := if st.p != 0 then st.d + 1 else st.d;
            Scanned("::" + rest, st) == Scanned(rest, State(d + 1, 0, d, Set(st.parts, d, 0)))
  {
    assert ("::" + rest)[2..] == rest;
  }

  lemma NothingScans(st: State)
    requires Sound(st)
    ensures Scanned([], st) == Stop([], st)
  {
  }

  predicate ColonGoesOn(t: string, st: State)
    requires t != []
  {
    t[0] == ':' && |t| > 1 && st.d < 7 && (st.p != 0 || st.d == 0)
  }

  lemma ScanStops(t: string, st: State)
    requires Sound(st) && t != []
    requires if HexValue(t[0]) >= 0 then st.p == 4 else !ColonGoesOn(t, st)
    ensures Scanned(t, st) == Stop(t, st)
  {
  }

  lemma ScanStopsBehind(t: string, st: State)
    requires Sound(st) && t != [] && ColonGoesOn(t, st)
    requires !(t[1] == ':' && st.cc < 0) && (HexValue(t[1]) < 0 || st.p == 0)
    ensures Scanned(t, st) == Stop(t, st.(d := st.d + 1))
  {
  }

  lemma ScanOverruns(t: string, st: State)
    requires Sound(st) && t != [] && HexValue(t[0]) >= 0 && st.p != 4 && st.d >= 8
    ensures Scanned(t, st) == Overrun
  {
  }
}
