/** What a dotted quad is, and that IPAddressArg::parse accepts exactly the dotted quads. */
module DottedQuad {
  import opened Common
  import opened Ip6Text
  import Numeric

  predicate Digits(p: string)
  {
    forall i :: 0 <= i < |p| ==> IsDigit(p[i])
  }

  function DecValue(p: string): (v: int)
  {
    Numeric.Value(p, 10)
  }

  lemma {:induction false} DigitsValue(p: string)
    requires Digits(p)
    ensures DecValue(p) >= 0
  {
    if p != [] {
      DigitsValue(p[..|p| - 1]);
    }
  }

  /** Decimal digits for a byte; leading zeros do not matter. */
  ghost predicate PartText(p: string)
  {
    p != [] && Digits(p) && DecValue(p) <= 255
  }

  ghost predicate QuadTexts(q: seq<string>)
  {
    |q| == 4 && forall i :: 0 <= i < 4 ==> PartText(q[i])
  }

  function Dotted(q: seq<string>): (s: string)
    requires |q| == 4
  {
    q[0] + "." + q[1] + "." + q[2] + "." + q[3]
  }

  // ---------------------------------------------------------------- reading dotted quads

  function DigitOf(c: char): (d: nat)
    requires IsDigit(c)
    ensures d == HexValue(c) < 10
  {
    c as int - '0' as int
  }

  /** v with the digits ds written behind it. */
  function Extended(v: nat, ds: string): (w: nat)
    requires Digits(ds)
    ensures w >= v
    decreases |ds|
  {
    if ds == [] then v else Extended(v * 10 + DigitOf(ds[0]), ds[1..])
  }

  lemma {:induction false} ExtendedIsValue(a: string, ds: string)
    requires Digits(a) && Digits(ds) && DecValue(a) >= 0
    ensures Extended(DecValue(a), ds) == DecValue(a + ds)
    decreases |ds|
  {
    hide IsDigit, HexValue;
    if ds == [] {
      assert a + ds == a;
    } else {
      var a' := a + [ds[0]];
      assert a'[..|a|] == a && a' + ds[1..] == a + ds;
      assert DecValue(a') == DecValue(a) * 10 + DigitOf(ds[0]);
      ExtendedIsValue(a', ds[1..]);
    }
  }

  lemma FirstDigit(c: char)
    requires IsDigit(c)
    ensures DecValue([c]) == DigitOf(c)
  {
    assert [c][..0] == [];
    assert Numeric.Value([], 10) == 0;
  }

  /** What a part's digits add up to. */
  lemma PartIsExtended(p: string)
    requires p != [] && Digits(p)
    ensures DecValue(p) == Extended(DigitOf(p[0]), p[1..]) >= 0
  {
    FirstDigit(p[0]);
    ExtendedIsValue([p[0]], p[1..]);
    assert p == [p[0]] + p[1..];
  }

  lemma MorePartUnfolds(t: string, part: nat)
    ensures MorePart(t, part)
            == if t != [] && IsDigit(t[0]) && part <= 255 then MorePart(t[1..], part * 10 + DigitOf(t[0])) else (part, t)
  {
  }

  lemma ExtendedUnfolds(v: nat, ds: string)
    requires Digits(ds)
    ensures Extended(v, ds) == if ds == [] then v else Extended(v * 10 + DigitOf(ds[0]), ds[1..])
  {
  }

  lemma {:induction false} MorePartTakes(t: string, part: nat) returns (ds: string)
    ensures var r := MorePart(t, part);
            && t == ds + r.1 && Digits(ds) && r.0 == Extended(part, ds)
            && (r.0 <= 255 ==> r.1 == [] || !IsDigit(r.1[0]))
    decreases |t|
  {
    hide IsDigit, MorePart, Extended;
    ds := [];
    MorePartUnfolds(t, part);
    ExtendedUnfolds(part, []);
    if t != [] && IsDigit(t[0]) && part <= 255 {
      var more := MorePartTakes(t[1..], part * 10 + DigitOf(t[0]));
      ds := [t[0]] + more;
      assert ds[1..] == more;
      assert t == [t[0]] + t[1..];
      ExtendedUnfolds(part, ds);
    }
  }

  lemma {:induction false} MorePartGives(ds: string, rest: string, part: nat)
    requires Digits(ds) && Extended(part, ds) <= 255 && (rest == [] || !IsDigit(rest[0]))
    ensures MorePart(ds + rest, part) == (Extended(part, ds), rest)
    decreases |ds|
  {
    hide IsDigit;
    if ds == [] {
      assert ds + rest == rest;
    } else {
      assert (ds + rest)[1..] == ds[1..] + rest;
      MorePartGives(ds[1..], rest, part * 10 + DigitOf(ds[0]));
    }
  }

  /** Parts each with a dot in front. */
  function Dots(q: seq<string>): (s: string)
  {
    if q == [] then [] else "." + q[0] + Dots(q[1..])
  }

  /** Parts from the d-th on; the first of all has no dot in front. */
  function Glued(q: seq<string>, d: nat): (s: string)
  {
    if q == [] then [] else (if d == 0 then [] else ".") + q[0] + Dots(q[1..])
  }

  ghost predicate PartTexts(q: seq<string>)
  {
    forall i {:trigger q[i]} :: 0 <= i < |q| ==> PartText(q[i])
  }

  ghost function DecValues(q: seq<string>): (b: seq<int>)
  {
    seq(|q|, i requires 0 <= i < |q| => DecValue(q[i]))
  }

  lemma DecValuesCons(p: string, q: seq<string>)
    ensures DecValues([p] + q) == [DecValue(p)] + DecValues(q)
  {
    hide DecValue;
  }

  lemma GluedCons(p: string, q: seq<string>, d: nat)
    ensures Glued([p] + q, d) == (if d == 0 then [] else ".") + p + Glued(q, d + 1)
  {
    assert ([p] + q)[1..] == q;
  }

  lemma PartGives(p: string, rest: string)
    requires PartText(p) && (rest == [] || !IsDigit(rest[0]))
    ensures MorePart((p + rest)[1..], DigitOf(p[0])) == (DecValue(p), rest)
  {
    hide DecValue;
    assert (p + rest)[1..] == p[1..] + rest;
    PartIsExtended(p);
    MorePartGives(p[1..], rest, DigitOf(p[0]));
  }

  /** Where the loop over parts stops. */
  predicate NoPart(t: string, d: nat)
  {
    || d >= 4 || t == [] || (d > 0 && t[0] != '.')
    || (var u := if d == 0 then t else t[1..];
        u == [] || !IsDigit(u[0]) || MorePart(u[1..], DigitOf(u[0])).0 > 255)
  }

  /** One turn of the loop over parts. */
  lemma PartsStep(t: string, d: nat)
    requires !NoPart(t, d)
    ensures var u := if d == 0 then t else t[1..];
            var r := MorePart(u[1..], DigitOf(u[0]));
            Parts(t, d).0 == [r.0] + Parts(r.1, d + 1).0 && Parts(t, d).1 == Parts(r.1, d + 1).1
  {
    hide MorePart, IsDigit;
  }

  lemma PartsUnfold(t: string, d: nat, p: string, rest: string)
    requires d < 4 && PartText(p) && (rest == [] || !IsDigit(rest[0]))
    requires t == (if d == 0 then [] else ".") + p + rest
    ensures Parts(t, d).0 == [DecValue(p)] + Parts(rest, d + 1).0 && Parts(t, d).1 == Parts(rest, d + 1).1
  {
    hide MorePart, DecValue, Parts, IsDigit;
    PartGives(p, rest);
    var u := if d == 0 then t else t[1..];
    assert u == p + rest && u[0] == p[0];
    PartsStep(t, d);
  }

  lemma {:induction false} PartsGive(q: seq<string>, d: nat)
    requires PartTexts(q) && d + |q| == 4
    ensures Parts(Glued(q, d), d).0 == DecValues(q) && Parts(Glued(q, d), d).1 == []
    decreases |q|
  {
    hide Parts, Glued, DecValue, DecValues, PartText;
    if q == [] {
      NoParts();
    } else {
      var p, more := q[0], q[1..];
      assert q == [p] + more;
      GluedCons(p, more, d);
      DecValuesCons(p, more);
      PartsGive(more, d + 1);
      GluedStarts(more, d + 1);
      PartsUnfold(Glued(q, d), d, p, Glued(more, d + 1));
    }
  }

  lemma NoParts()
    ensures Parts([], 4).0 == [] && Parts([], 4).1 == [] && Glued([], 4) == [] && DecValues([]) == []
  {
  }

  lemma GluedStarts(q: seq<string>, d: nat)
    requires d > 0
    ensures Glued(q, d) == [] || !IsDigit(Glued(q, d)[0])
  {
  }

  /** A part in front of u, or none if the digits there exceed 255. */
  lemma PartTakes(u: string) returns (p: string, rest: string)
    requires u != [] && IsDigit(u[0])
    ensures if MorePart(u[1..], DigitOf(u[0])).0 > 255 then p == []
            else PartText(p) && u == p + rest && (rest == [] || !IsDigit(rest[0]))
  {
    hide MorePart, DecValue, IsDigit, Extended;
    var r := MorePart(u[1..], DigitOf(u[0]));
    var ds := MorePartTakes(u[1..], DigitOf(u[0]));
    p, rest := [], u;
    if r.0 <= 255 {
      p, rest := [u[0]] + ds, r.1;
      assert p[1..] == ds;
      PartIsExtended(p);
      assert u == [u[0]] + u[1..];
    }
  }

  lemma NoPartStops(t: string, d: nat)
    requires d <= 4 && NoPart(t, d)
    ensures Parts(t, d).0 == [] && Parts(t, d).1 == t
  {
    hide MorePart;
  }

  /** Either there is no part to read, or a part as it should be. */
  lemma PartOrNone(t: string, d: nat) returns (p: string, rest: string)
    requires d <= 4
    ensures p == [] ==> Parts(t, d).0 == [] && Parts(t, d).1 == t
    ensures p != [] ==> d < 4 && PartText(p) && (rest == [] || !IsDigit(rest[0]))
    ensures p != [] ==> t == (if d == 0 then [] else ".") + p + rest
  {
    hide Parts, MorePart, DecValue, IsDigit;
    p, rest := [], t;
    if NoPart(t, d) {
      NoPartStops(t, d);
    } else {
      p, rest := PartTakes(if d == 0 then t else t[1..]);
      assert d > 0 ==> t == "." + t[1..];
    }
  }

  /** Whatever the loop reads is parts as they should be. */
  lemma {:induction false} PartsTake(t: string, d: nat) returns (q: seq<string>)
    requires d <= 4
    ensures var r := Parts(t, d);
            PartTexts(q) && r.0 == DecValues(q) && t == Glued(q, d) + r.1 && |q| <= 4 - d
    decreases 4 - d
  {
    hide Parts, DecValues, Glued, IsDigit, PartText;
    q := [];
    NoneGlued(t, d);
    var p, rest := PartOrNone(t, d);
    if p != [] {
      PartsUnfold(t, d, p, rest);
      var more := PartsTake(rest, d + 1);
      q := [p] + more;
      GluedCons(p, more, d);
      DecValuesCons(p, more);
    }
  }

  lemma NoneGlued(t: string, d: nat)
    ensures t == Glued([], d) + t && DecValues([]) == []
  {
  }

  /** IPAddressArg::parse accepts exactly the dotted quads, and reads them as they are meant. */
  lemma QuadExactly(t: string, b: seq<int>)
    ensures ParseQuad(t) == Some(b) <==> exists q :: QuadTexts(q) && t == Dotted(q) && b == DecValues(q)
  {
    hide Parts, DecValue, DecValues, Glued, Dotted;
    if ParseQuad(t) == Some(b) {
      var q := PartsTake(t, 0);
      DottedIsGlued(q);
      assert Glued(q, 0) + [] == Glued(q, 0);
      assert QuadTexts(q) && t == Dotted(q) && b == DecValues(q);
    }
    if q :| QuadTexts(q) && t == Dotted(q) && b == DecValues(q) {
      DottedIsGlued(q);
      PartsGive(q, 0);
    }
  }

  lemma DottedIsGlued(q: seq<string>)
    ensures |DecValues(q)| == |q| && (|q| == 4 ==> Dotted(q) == Glued(q, 0))
  {
    if |q| == 4 {
      assert q[1..][1..] == q[2..] && q[2..][1..] == q[3..] && q[3..][1..] == [];
      assert Dots(q[3..]) == "." + q[3] + Dots([]);
      assert Dots(q[2..]) == "." + q[2] + Dots(q[3..]);
      assert Dots(q[1..]) == "." + q[1] + Dots(q[2..]);
    }
  }
}
