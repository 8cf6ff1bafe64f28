/** The loops of IP6Address::unparse, IP6AddressArg::basic_parse and IPAddressArg::basic_parse, each
    proved to compute the function of module Ip6Text. */
module Ip6Address {
  import opened Common
  import opened Ip6Text
  import Ip6Accept
  import Ip6Forms

  // ---------------------------------------------------------------- writing

  /** The first of the longest runs of zero groups. */
  ghost predicate LongestZeroRun(a: seq<nat>, zp: nat, zl: nat)
    requires |a| == 8
  {
    && zp + zl <= 8 && Zeros(a, zp, zp + zl)
    && (forall lo, hi :: 0 <= lo <= hi <= 8 && Zeros(a, lo, hi) ==> hi - lo <= zl)
    && (forall lo, hi :: 0 <= lo < hi <= 8 && Zeros(a, lo, hi) && hi - lo == zl ==> zp <= lo)
  }

  method FindZeroRun(a: seq<nat>) returns (zp: nat, zl: nat)
    requires |a| == 8
    ensures LongestZeroRun(a, zp, zl)
  {
    zp, zl := 0, 0;
    var lzp := 0;
    for p := 0 to 8
      invariant lzp <= p && Zeros(a, lzp, p) && (lzp > 0 ==> a[lzp - 1] != 0)
      invariant zp + zl <= p && Zeros(a, zp, zp + zl)
      invariant forall lo, hi :: 0 <= lo <= hi <= p && Zeros(a, lo, hi) ==> hi - lo <= zl
      invariant forall lo, hi :: 0 <= lo < hi <= p && Zeros(a, lo, hi) && hi - lo == zl ==> zp <= lo
    {
      if a[p] != 0 {
        lzp := p + 1;
      } else if p + 1 - lzp > zl {
        zp, zl := lzp, p + 1 - lzp;
      }
    }
  }

  lemma {:induction false} JoinAppend(gs: seq<nat>, v: nat)
    ensures Join(gs + [v]) == Join(gs) + (if gs == [] then [] else ":") + Hex(v)
  {
    hide Hex;
    if gs == [] {
      assert gs + [v] == [v];
    } else {
      JoinAppend(gs[1..], v);
      assert (gs + [v])[1..] == gs[1..] + [v];
      if |gs| > 1 {
        assert Hex(gs[0]) + ":" + (Join(gs[1..]) + ":" + Hex(v)) == Join(gs) + ":" + Hex(v);
      }
    }
  }

  /** What has been written before group p. */
  ghost function Written(a: seq<nat>, zp: nat, zl: nat, p: nat): (s: string)
    requires zp + zl <= |a| && p <= |a|
  {
    if zl <= 1 || p <= zp then Join(a[..p])
    else if p < zp + zl then []
    else Join(a[..zp]) + (if p == zp + zl < |a| then ":" else "::") + Join(a[zp + zl..p])
  }

  lemma WrittenGroup(a: seq<nat>, zp: nat, zl: nat, p: nat)
    requires zp + zl <= |a| && p < |a| && (zl <= 1 || p < zp || p >= zp + zl)
    ensures Written(a, zp, zl, p + 1) == Written(a, zp, zl, p) + (if p != 0 then ":" else []) + Hex(a[p])
  {
    hide Hex, Join;
    if zl <= 1 || p < zp {
      assert a[..p + 1] == a[..p] + [a[p]];
      JoinAppend(a[..p], a[p]);
    } else {
      assert a[zp + zl..p + 1] == a[zp + zl..p] + [a[p]];
      JoinAppend(a[zp + zl..p], a[p]);
      JoinOfNone();
    }
  }

  lemma WrittenGap(a: seq<nat>, zp: nat, zl: nat)
    requires zp + zl <= |a| && zl > 1
    ensures Written(a, zp, zl, zp + zl)
            == Written(a, zp, zl, zp) + (if zp + zl == |a| then "::" else ":")
  {
    JoinOfNone();
  }

  method Unparse(a: seq<nat>) returns (sa: string)
    requires Address(a)
    ensures exists zp: nat, zl: nat, f ::
              LongestZeroRun(a, zp, zl) && Ip6Forms.IsWritten(sa, f, a) && Ip6Forms.Preferred(f, a, zp, zl)
    ensures BasicParse(sa) == Parsed(|sa|, a)
  {
    hide Hex, Join, Quad, BasicParse, Written, LongestZeroRun, Ip6Forms.IsWritten, Ip6Forms.Preferred;
    var zp, zl := FindZeroRun(a);
    LongestIsRun(a, zp, zl);
    Ip6Accept.ParseText(a, zp, zl);
    ghost var f := Ip6Forms.TextIsPreferred(a, zp, zl);
    if a[0] == 0 && a[1] == 0 && a[2] == 0 && a[3] == 0 {
      if a[4] == 0 && a[5] == 0 && a[6] == 0 && a[7] == 0 {
        return "::";
      } else if a[4] == 0 && a[5] == 0 {
        return "::" + Quad(Bytes(a));
      } else if a[4] == 0 && a[5] == 0xFFFF {
        return "::ffff:" + Quad(Bytes(a));
      }
    }
    sa := [];
    var p := 0;
    WrittenNothing(a, zp, zl);
    while p < 8
      invariant p <= 8 && (zl <= 1 || p <= zp || p >= zp + zl)
      invariant sa == Written(a, zp, zl, p)
    {
      if p == zp && zl > 1 {
        WrittenGap(a, zp, zl);
        p := p + zl - 1;
        sa := sa + if p == 7 then "::" else ":";
      } else {
        WrittenGroup(a, zp, zl, p);
        sa := sa + (if p != 0 then ":" else []) + Hex(a[p]);
      }
      p := p + 1;
    }
    WrittenAll(a, zp, zl);
  }

  lemma LongestIsRun(a: seq<nat>, zp: nat, zl: nat)
    requires |a| == 8 && LongestZeroRun(a, zp, zl)
    ensures zp + zl <= 8 && Zeros(a, zp, zp + zl)
  {
  }

  lemma WrittenNothing(a: seq<nat>, zp: nat, zl: nat)
    requires zp + zl <= |a|
    ensures Written(a, zp, zl, 0) == []
  {
    JoinOfNone();
  }

  lemma WrittenAll(a: seq<nat>, zp: nat, zl: nat)
    requires zp + zl <= |a|
    ensures Written(a, zp, zl, |a|)
            == if zl > 1 then Join(a[..zp]) + "::" + Join(a[zp + zl..]) else Join(a)
  {
    assert a[..|a|] == a && a[zp + zl..|a|] == a[zp + zl..];
  }

  // ---------------------------------------------------------------- reading

  method MoreDigits(str: string, begin: nat, first: nat) returns (part: nat, t: nat)
    requires begin <= |str|
    ensures begin <= t <= |str| && MorePart(str[begin..], first) == (part, str[t..])
  {
    part, t := first, begin;
    while t != |str| && IsDigit(str[t]) && part <= 255
      invariant begin <= t <= |str|
      invariant MorePart(str[begin..], first) == MorePart(str[t..], part)
    {
      assert str[t..][1..] == str[t + 1..];
      part := part * 10 + (str[t] as int - '0' as int);
      t := t + 1;
    }
  }

  lemma PartsGoOn(str: string, s: nat, d: nat, part: nat, t: nat)
    requires d < 4 && s < |str| && (d == 0 || str[s] == '.') && t <= |str|
    requires var u := if d == 0 then s else s + 1;
             u < |str| && IsDigit(str[u]) && MorePart(str[u + 1..], str[u] as int - '0' as int) == (part, str[t..])
    requires part <= 255
    ensures Parts(str[s..], d) == ([part] + Parts(str[t..], d + 1).0, Parts(str[t..], d + 1).1)
  {
    hide MorePart;
    var u := if d == 0 then s else s + 1;
    assert str[u..] == if d == 0 then str[s..] else str[s..][1..];
    assert str[u..][1..] == str[u + 1..];
  }

  lemma PartsGiveUp(str: string, s: nat, d: nat)
    requires d < 4 && s < |str| && (d == 0 || str[s] == '.')
    requires var u := if d == 0 then s else s + 1;
             u == |str| || !IsDigit(str[u]) || MorePart(str[u + 1..], str[u] as int - '0' as int).0 > 255
    ensures Parts(str[s..], d) == ([], str[s..])
  {
    hide MorePart;
    var u := if d == 0 then s else s + 1;
    assert str[u..] == if d == 0 then str[s..] else str[s..][1..];
    if u < |str| {
      assert str[u..][1..] == str[u + 1..];
    }
  }

  lemma PartsEndAt(str: string, s: nat, d: nat)
    requires d <= 4 && s <= |str| && (d == 4 || s == |str| || (d != 0 && str[s] != '.'))
    ensures Parts(str[s..], d) == ([], str[s..])
  {
  }

  method IpBasicParse(str: string, begin: nat, value: array<nat>) returns (nbytes: nat, s: nat)
    requires begin <= |str| && value.Length == 4
    modifies value
    ensures nbytes <= 4 && begin <= s <= |str|
    ensures Parts(str[begin..], 0) == (value[..nbytes], str[s..])
    ensures forall i :: nbytes <= i < 4 ==> value[i] == 0
  {
    hide MorePart, Parts;
    forall i | 0 <= i < 4 {
      value[i] := 0;
    }
    nbytes, s := 0, begin;
    ghost var got: seq<nat> := [];
    while nbytes < 4 && s != |str| && (nbytes == 0 || str[s] == '.')
      invariant nbytes <= 4 && begin <= s <= |str|
      invariant forall i :: nbytes <= i < 4 ==> value[i] == 0
      invariant got == value[..nbytes]
      invariant Parts(str[begin..], 0).0 == got + Parts(str[s..], nbytes).0
      invariant Parts(str[begin..], 0).1 == Parts(str[s..], nbytes).1
      decreases 4 - nbytes
    {
      var t := if nbytes == 0 then s else s + 1;
      if t == |str| || !IsDigit(str[t]) {
        PartsGiveUp(str, s, nbytes);
        assert got + [] == got;
        return;
      }
      var part, t' := MoreDigits(str, t + 1, str[t] as int - '0' as int);
      if part > 255 {
        PartsGiveUp(str, s, nbytes);
        assert got + [] == got;
        return;
      }
      PartsGoOn(str, s, nbytes, part, t');
      s := t';
      value[nbytes] := part;
      nbytes := nbytes + 1;
      assert got + ([part] + Parts(str[s..], nbytes).0) == got + [part] + Parts(str[s..], nbytes).0;
      got := got + [part];
    }
    PartsEndAt(str, s, nbytes);
    assert got + [] == got;
  }

  method ParseQuadAt(str: string, begin: nat) returns (quad: Option<seq<nat>>)
    requires begin <= |str|
    ensures quad == ParseQuad(str[begin..])
  {
    hide Parts;
    var value := new nat[4];
    var nbytes, s := IpBasicParse(str, begin, value);
    assert str[s..] == [] <==> s == |str|;
    quad := if s == |str| && nbytes == 4 then Some(value[..nbytes]) else None;
  }

  /** The scanning loop of basic_parse. */
  method ScanGroups(str: string, parts: array<nat>) returns (overrun: bool, s: nat, d: nat, p: nat, cc: int)
    requires parts.Length == 8
    modifies parts
    ensures overrun ==> Scanned(str, START) == Overrun
    ensures !overrun ==> s <= |str| && Sound(State(d, p, cc, parts[..]))
    ensures !overrun ==> Scanned(str, START) == Stop(str[s..], State(d, p, cc, parts[..]))
  {
    hide HexValue, Scanned;
    forall i | 0 <= i < 8 {
      parts[i] := 0xFFFF;
    }
    overrun, s, d, p, cc := false, 0, 0, 0, -1;
    assert parts[..] == START.parts && str[0..] == str;
    while s != |str|
      invariant s <= |str| && p <= 4
      invariant Sound(State(d, p, cc, parts[..]))
      invariant Scanned(str, START) == Scanned(str[s..], State(d, p, cc, parts[..]))
      decreases |str| - s
    {
      ghost var st, t := State(d, p, cc, parts[..]), str[s..];
      var digit := HexValue(str[s]);
      if digit < 0 {
        if str[s] == ':' && s + 1 != |str| && d < 7 && (p != 0 || d == 0) {
          if str[s + 1] == ':' && cc < 0 {
            assert t == "::" + str[s + 2..];
            DoubleColonScans(str[s + 2..], st);
            d := if p != 0 then d + 1 else d;
            cc := d;
            parts[d] := 0;
            assert parts[..] == Set(st.parts, d, 0);
            s := s + 1;
          } else if HexValue(str[s + 1]) < 0 || p == 0 {
            ScanStopsBehind(t, st);
            d := d + 1;
            return;
          } else {
            assert t == ":" + str[s + 1..];
            ColonScans(str[s + 1..], st);
          }
          p := 0;
          d := d + 1;
        } else {
          ScanStops(t, st);
          return;
        }
      } else {
        if p == 4 {
          ScanStops(t, st);
          return;
        }
        if d >= 8 {
          ScanOverruns(t, st);
          overrun := true;
          return;
        }
        assert t == [str[s]] + str[s + 1..];
        DigitScans(str[s], str[s + 1..], st);
        parts[d] := ((if p != 0 then parts[d] * 16 else 0) + digit) % 0x1_0000;
        assert parts[..] == Set(st.parts, d, Shifted(st, digit));
        p := p + 1;
      }
      s := s + 1;
    }
    NothingScans(State(d, p, cc, parts[..]));
  }

  /** Back to the last colon before s, and the dotted quad behind it. */
  method ParseSuffix(str: string, s: nat, d: int, cc: int) returns (quad: Option<seq<nat>>)
    requires s <= |str|
    ensures quad == if (d == 6 || (d < 6 && cc >= 0)) && s < |str| && BackToColon(str, s) != 0
                    then ParseQuad(str[BackToColon(str, s) + 1..]) else None
  {
    hide ParseQuad;
    quad := None;
    if (d == 6 || (d < 6 && cc >= 0)) && s != |str| {
      var t: nat := s;
      while t != 0 && str[t] != ':'
        invariant t <= s && BackToColon(str, s) == BackToColon(str, t)
      {
        t := t - 1;
      }
      if t != 0 {
        quad := ParseQuadAt(str, t + 1);
      }
    }
  }

  /** Move the groups behind the "::" to the end and clear the gap. */
  method SpreadInPlace(parts: array<nat>, cc: int, d: int)
    requires parts.Length == 8 && -1 <= cc <= d <= 7
    modifies parts
    ensures parts[..] == Spread(old(parts[..]), cc, d)
  {
    if cc >= 0 && d != 7 {
      var extra := 7 - d;
      MoveUp(parts, cc + 1, d + 1, extra);
      ghost var moved := parts[..];
      Clear(parts, cc + 1, extra);
      assert moved[..cc + 1] == old(parts[..])[..cc + 1];
    }
  }

  /** memmove. */
  method MoveUp(parts: array<nat>, lo: nat, hi: nat, extra: nat)
    requires lo <= hi && hi + extra == parts.Length
    modifies parts
    ensures parts[..] == old(parts[..lo + extra]) + old(parts[lo..hi])
  {
    forall i | lo <= i < hi {
      parts[i + extra] := parts[i];
    }
  }

  /** memset. */
  method Clear(parts: array<nat>, lo: nat, n: nat)
    requires lo + n <= parts.Length
    modifies parts
    ensures parts[..] == old(parts[..lo]) + ZeroRun(n) + old(parts[lo + n..])
  {
    forall i | lo <= i < lo + n {
      parts[i] := 0;
    }
  }

  /** IP6AddressArg::basic_parse. The outcome beyond stands for a text that makes it store past the
      eighth group. */
  method BasicParseInto(str: string, parts: array<nat>) returns (beyond: bool, s: nat)
    requires parts.Length == 8
    modifies parts
    ensures beyond <==> BasicParse(str) == Beyond
    ensures BasicParse(str) == NoAddress ==> s == 0
    ensures BasicParse(str).Parsed? ==> BasicParse(str) == Parsed(s, parts[..])
  {
    hide Scanned, ParseQuad, BackToColon, Spread;
    var overrun, s', d', p, cc := ScanGroups(str, parts);
    if overrun {
      return true, 0;
    }
    s := s';
    var d: int := d';
    if p == 0 {
      d := d - 1;
    }
    ghost var st := State(d', p, cc, parts[..]);
    var quad := ParseSuffix(str, s, d, cc);
    assert quad == Suffix(str, s, st);
    if quad.Some? {
      var q := quad.value;
      var dd := if d == cc then d + 1 else d;
      if dd > 6 {
        return true, 0;
      }
      parts[dd] := q[0] * 256 + q[1];
      parts[dd + 1] := q[2] * 256 + q[3];
      assert parts[..] == Set(Set(st.parts, dd, q[0] * 256 + q[1]), dd + 1, q[2] * 256 + q[3]);
      d := dd + 1;
      s := |str|;
    }
    if d != 7 && cc < 0 {
      return false, 0;
    }
    SpreadInPlace(parts, cc, d);
    beyond := false;
  }
}
