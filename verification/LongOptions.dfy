/** Long-option matching in click/lib/clp.c. For every option the library precomputes how many
    characters of its name are needed to tell it from the others; a first-match scan then finds
    unambiguous abbreviations. */
module LongOptions {

  /** An option with its long name (without a leading "no-"), the polarities it may be given in,
      whether its abbreviations are preferred, and its identifier. */
  datatype Opt = Opt(name: string, isLong: bool, pos: bool, neg: bool, preferred: bool, id: int)
  {
    predicate Allows(negated: bool)
    {
      isLong && if negated then neg else pos
    }
  }

  /** C's strncmp(s, t, n) == 0. */
  predicate SameStart(s: string, t: string, n: nat)
  {
    s == t || (n <= |s| && n <= |t| && s[..n] == t[..n])
  }

  /** The length of the longest common prefix. */
  function Common(s: string, t: string): (n: nat)
    ensures n <= |s| && n <= |t| && s[..n] == t[..n]
    ensures n < |s| && n < |t| ==> s[n] != t[n]
  {
    if s == [] || t == [] || s[0] != t[0] then 0
    else
      var n := 1 + Common(s[1..], t[1..]);
      assert s[..n] == [s[0]] + s[1..][..n - 1] && t[..n] == [t[0]] + t[1..][..n - 1];
      n
  }

  /** How many characters of s it takes to tell it from t; all of s if t continues s. */
  function Needed(s: string, t: string): (n: nat)
  {
    if Common(s, t) == |s| then |s| else Common(s, t) + 1
  }

  /** min_different_chars. */
  method MinDifferentChars(s: string, t: string) returns (n: nat)
    ensures n == Needed(s, t)
  {
    n := 0;
    while n < |s| && n < |t| && s[n] == t[n]
      invariant n <= |s| && n <= |t| && s[..n] == t[..n]
    {
      n := n + 1;
    }
    AgreeWithinCommon(s, t, n);
    if n < |s| && n < |t| {
      assert s[..n + 1][n] != t[..n + 1][n];
      AgreeWithinCommon(s, t, n + 1);
    }
    if n != |s| {
      n := n + 1;
    }
  }

  /** Two strings agree on their first k characters exactly up to their common prefix. */
  lemma AgreeWithinCommon(s: string, t: string, k: nat)
    requires k <= |s| && k <= |t|
    ensures s[..k] == t[..k] <==> k <= Common(s, t)
  {
    var c := Common(s, t);
    if k <= c {
      assert s[..k] == s[..c][..k] && t[..k] == t[..c][..k];
    } else {
      assert s[..k][c] != t[..k][c];
    }
  }

  // ---------------------------------------------------------------- the longest minimum match

  /** Option b makes a's name need telling apart: both can be given, they are different options,
      and a is not a preferred match that b's name merely continues. */
  predicate Rivals(a: Opt, b: Opt, negated: bool)
  {
    a.Allows(negated) && b.Allows(negated) && a.id != b.id && !(a.preferred && a.name <= b.name)
  }

  /** compare_options: the minimum match of a, so far m, after looking at b. */
  function Updated(a: Opt, b: Opt, m: nat, negated: bool): (m': nat)
  {
    if Rivals(a, b, negated) && SameStart(a.name, b.name, m) then Needed(a.name, b.name) else m
  }

  /** The minimum match of option i after looking at the first j options. */
  function MinMatch(opts: seq<Opt>, i: nat, negated: bool, j: nat): (m: nat)
    requires i < |opts| && j <= |opts|
  {
    if j == 0 then 1 else Updated(opts[i], opts[j - 1], MinMatch(opts, i, negated, j - 1), negated)
  }

  /** Different options that can be given in the same polarity have different names; the library
      reports an internal error otherwise. */
  ghost predicate NamesDiffer(opts: seq<Opt>)
  {
    forall i, j, negated :: 0 <= i < |opts| && 0 <= j < |opts| && opts[i].id != opts[j].id
                            && opts[i].Allows(negated) && opts[j].Allows(negated)
                            ==> opts[i].name != opts[j].name
  }

  lemma NeededVersusPrefix(s: string, t: string, m: nat)
    requires s != t && (m <= |s| || m == 1)
    ensures SameStart(s, t, m) ==> m <= Needed(s, t)
    ensures !SameStart(s, t, m) ==> Needed(s, t) <= m
  {
    if m <= |s| && m <= |t| {
      AgreeWithinCommon(s, t, m);
    }
  }

  /** The minimum match is the greatest of the lengths needed against each rival, and at least 1. */
  lemma {:induction false} MinMatchIsMax(opts: seq<Opt>, i: nat, negated: bool, j: nat)
    requires NamesDiffer(opts) && i < |opts| && j <= |opts|
    ensures var m := MinMatch(opts, i, negated, j);
            && 1 <= m && (m <= |opts[i].name| || m == 1)
            && (forall r :: 0 <= r < j && Rivals(opts[i], opts[r], negated) ==> Needed(opts[i].name, opts[r].name) <= m)
            && (m == 1 || exists r :: 0 <= r < j && Rivals(opts[i], opts[r], negated)
                                      && Needed(opts[i].name, opts[r].name) == m)
  {
    if j > 0 {
      MinMatchIsMax(opts, i, negated, j - 1);
      var m := MinMatch(opts, i, negated, j - 1);
      if Rivals(opts[i], opts[j - 1], negated) {
        NeededVersusPrefix(opts[i].name, opts[j - 1].name, m);
      }
    }
  }

  // ---------------------------------------------------------------- what an abbreviation means

  /** Text a picks option i: it abbreviates or spells i's name, and every other option it could
      abbreviate gives way, because a spells i's name in full, or because i is preferred and the
      other's name only continues i's. */
  ghost predicate Picks(opts: seq<Opt>, negated: bool, a: string, i: nat)
  {
    && i < |opts| && opts[i].Allows(negated) && a != [] && a <= opts[i].name
    && (forall j :: 0 <= j < |opts| && opts[j].Allows(negated) && opts[j].id != opts[i].id && a <= opts[j].name ==>
          a == opts[i].name || (opts[i].preferred && opts[i].name <= opts[j].name))
  }

  /** Being long enough for the precomputed minimum is picking the option. */
  lemma LongEnoughPicks(opts: seq<Opt>, negated: bool, a: string, i: nat)
    requires NamesDiffer(opts) && i < |opts| && opts[i].Allows(negated) && a != [] && a <= opts[i].name
    ensures MinMatch(opts, i, negated, |opts|) <= |a| <==> Picks(opts, negated, a, i)
  {
    var n, m := opts[i].name, MinMatch(opts, i, negated, |opts|);
    MinMatchIsMax(opts, i, negated, |opts|);
    forall j | 0 <= j < |opts| && Rivals(opts[i], opts[j], negated)
      ensures Needed(n, opts[j].name) <= |a| <==> !(a <= opts[j].name) || a == n
    {
      NeededVersusText(n, opts[j].name, a);
    }
    if Picks(opts, negated, a, i) && m != 1 {
      var r :| 0 <= r < |opts| && Rivals(opts[i], opts[r], negated) && Needed(n, opts[r].name) == m;
    }
  }

  lemma NeededVersusText(s: string, t: string, a: string)
    requires s != t && a <= s
    ensures Needed(s, t) <= |a| <==> !(a <= t) || a == s
  {
    if |a| <= |t| {
      AgreeWithinCommon(s, t, |a|);
    }
  }

  /** A text picks at most one option, up to options sharing an identifier. */
  lemma PicksAgree(opts: seq<Opt>, negated: bool, a: string, i: nat, j: nat)
    requires NamesDiffer(opts) && Picks(opts, negated, a, i) && Picks(opts, negated, a, j)
    ensures opts[i].id == opts[j].id
  {
  }

  // ---------------------------------------------------------------- matching an argument

  /** The text before '=', or all of it. */
  function TextOf(arg: string): (a: string)
    ensures a <= arg && '=' !in a
    ensures |a| == |arg| || arg[|a|] == '='
  {
    if arg == [] || arg[0] == '=' then [] else [arg[0]] + TextOf(arg[1..])
  }

  /** The result of argcmp when every dash counts: 0 for no match, -1 for a match that is too short,
      and otherwise the number of characters matched. */
  function Match(name: string, a: string, minMatch: nat): (r: int)
  {
    if !(a <= name) then 0 else if |a| < minMatch then -1 else |a|
  }

  /** argcmp with fewer_dashes false. */
  method Argcmp(name: string, arg: string, minMatch: nat) returns (r: int)
    requires minMatch > 0
    ensures r == Match(name, TextOf(arg), minMatch)
  {
    var n := 0;
    ghost var a := TextOf(arg);
    while n < |name| && n < |arg| && arg[n] != '=' && name[n] == arg[n]
      invariant n <= |name| && n <= |a| && name[..n] == a[..n]
    {
      assert a[n] == arg[n];
      n := n + 1;
    }
    if n < |arg| && arg[n] != '=' {
      assert n < |a| && a[n] == arg[n];
      assert n < |name| ==> name[..n + 1][n] != a[n];
      r := 0;
    } else {
      assert n == |a| && name[..n] == a;
      r := if n < minMatch then -1 else n;
    }
  }

  const MAX_AMBIGUOUS_VALUES := 4

  /** The options a scan passes over without picking: those the text could abbreviate. */
  function Candidates(opts: seq<Opt>, negated: bool, a: string, n: nat): (list: seq<nat>)
    requires n <= |opts|
  {
    if n == 0 then []
    else
      var before := Candidates(opts, negated, a, n - 1);
      if opts[n - 1].Allows(negated) && a <= opts[n - 1].name then before + [n - 1] else before
  }

  /** They are listed in order, each once. */
  lemma {:induction false} CandidatesAre(opts: seq<Opt>, negated: bool, a: string, n: nat)
    requires n <= |opts|
    ensures var list := Candidates(opts, negated, a, n);
            && (forall i :: i in list <==> 0 <= i < n && opts[i].Allows(negated) && a <= opts[i].name)
            && (forall x, y :: 0 <= x < y < |list| ==> list[x] < list[y])
  {
    if n > 0 {
      CandidatesAre(opts, negated, a, n - 1);
      var before := Candidates(opts, negated, a, n - 1);
      assert forall x :: 0 <= x < |before| ==> before[x] in before;
    }
  }

  /** calculate_lmm for one polarity: the minimum matches of all options. */
  method CalculateLmm(opts: seq<Opt>, negated: bool, lmm: array<nat>)
    requires lmm.Length == |opts|
    modifies lmm
    ensures forall i :: 0 <= i < |opts| ==> lmm[i] == MinMatch(opts, i, negated, |opts|)
  {
    var i := 0;
    while i < |opts|
      invariant 0 <= i <= |opts|
      invariant forall k :: 0 <= k < i ==> lmm[k] == MinMatch(opts, k, negated, |opts|)
    {
      lmm[i] := 1;
      var j := 0;
      while j < |opts|
        invariant 0 <= j <= |opts|
        invariant lmm[i] == MinMatch(opts, i, negated, j)
        invariant forall k :: 0 <= k < i ==> lmm[k] == MinMatch(opts, k, negated, |opts|)
      {
        if Rivals(opts[i], opts[j], negated) && SameStart(opts[i].name, opts[j].name, lmm[i]) {
          var n := MinDifferentChars(opts[i].name, opts[j].name);
          lmm[i] := n;
        }
        j := j + 1;
      }
      i := i + 1;
    }
  }

  /** The first pass of find_prefix_opt. It finds an option exactly if the text picks one, and then
      one that is picked; otherwise it counts every option the text could abbreviate, and records
      the first few. */
  method FindPrefixOpt(opts: seq<Opt>, lmm: array<nat>, negated: bool, arg: string)
    returns (found: int, ambiguous: nat, values: seq<nat>)
    requires NamesDiffer(opts) && lmm.Length == |opts|
    requires forall i :: 0 <= i < |opts| ==> lmm[i] == MinMatch(opts, i, negated, |opts|)
    ensures found >= 0 ==> Picks(opts, negated, TextOf(arg), found)
    ensures found < 0 ==> forall i: nat :: !Picks(opts, negated, TextOf(arg), i)
    ensures found < 0 ==> ambiguous == |Candidates(opts, negated, TextOf(arg), |opts|)|
    ensures found < 0 ==>
              values == Candidates(opts, negated, TextOf(arg), |opts|)
                        [..if ambiguous < MAX_AMBIGUOUS_VALUES then ambiguous else MAX_AMBIGUOUS_VALUES]
  {
    hide Picks, NamesDiffer, MinMatch, TextOf;
    ghost var a := TextOf(arg);
    ambiguous, values := 0, [];
    var i := 0;
    while i < |opts|
      invariant 0 <= i <= |opts|
      invariant forall k: nat :: k < i ==> !Picks(opts, negated, a, k)
      invariant ambiguous == |Candidates(opts, negated, a, i)|
      invariant values == Candidates(opts, negated, a, i)
                          [..if ambiguous < MAX_AMBIGUOUS_VALUES then ambiguous else MAX_AMBIGUOUS_VALUES]
    {
      PicksNeeds(opts, negated, a, i);
      if opts[i].Allows(negated) {
        MinMatchIsMax(opts, i, negated, |opts|);
        if a != [] && a <= opts[i].name {
          LongEnoughPicks(opts, negated, a, i);
        }
        var len := Argcmp(opts[i].name, arg, lmm[i]);
        if len > 0 {
          return i, ambiguous, values;
        } else if len < 0 {
          if ambiguous < MAX_AMBIGUOUS_VALUES {
            values := values + [i];
          }
          ambiguous := ambiguous + 1;
        }
      }
      i := i + 1;
    }
    found := -1;
    forall k: nat
      ensures !Picks(opts, negated, a, k)
    {
      PicksNeeds(opts, negated, a, k);
    }
  }

  lemma PicksNeeds(opts: seq<Opt>, negated: bool, a: string, i: nat)
    ensures Picks(opts, negated, a, i) ==> i < |opts| && opts[i].Allows(negated) && a != [] && a <= opts[i].name
  {
  }

  // ---------------------------------------------------------------- the plain case

  /** When identifiers tell all options apart and none is preferred, a nonempty text picks exactly
      the option it spells, or the only option it abbreviates when it spells none. */
  lemma PlainPicks(opts: seq<Opt>, negated: bool, a: string, i: nat)
    requires NamesDiffer(opts) && i < |opts| && opts[i].Allows(negated)
    requires forall j, k :: 0 <= j < k < |opts| ==> opts[j].id != opts[k].id
    requires forall j :: 0 <= j < |opts| ==> !opts[j].preferred
    ensures Picks(opts, negated, a, i) <==>
              && a != []
              && (a == opts[i].name
                  || (a <= opts[i].name
                      && forall j :: 0 <= j < |opts| && opts[j].Allows(negated) && a <= opts[j].name ==> j == i))
  {
    assert forall j :: 0 <= j < |opts| && j != i ==> opts[j].id != opts[i].id;
  }

  /** Nothing is ever picked by the empty text, not even an option without rivals. */
  lemma EmptyPicksNothing()
    ensures var opts := [Opt("help", true, true, false, false, 1)];
            NamesDiffer(opts) && Candidates(opts, false, [], 1) == [0] && !Picks(opts, false, [], 0)
  {
    var opts := [Opt("help", true, true, false, false, 1)];
    assert Candidates(opts, false, [], 0) == [];
  }

  /** Which option is found does not depend on the order the options are listed in. */
  lemma OrderDoesNotMatter(opts: seq<Opt>, opts': seq<Opt>, negated: bool, a: string, i: nat)
    requires NamesDiffer(opts) && multiset(opts) == multiset(opts')
    requires Picks(opts, negated, a, i)
    ensures exists j: nat :: Picks(opts', negated, a, j) && opts'[j] == opts[i]
  {
    assert opts[i] in multiset(opts');
    var j :| 0 <= j < |opts'| && opts'[j] == opts[i];
    forall k | 0 <= k < |opts'|
      ensures opts'[k] in opts
    {
      assert opts'[k] in multiset(opts);
    }
    assert Picks(opts', negated, a, j);
  }

  predicate Fits(o: Opt, negated: bool, a: string)
  {
    o.Allows(negated) && a <= o.name
  }

  /** The options themselves that the text could abbreviate. */
  function Fitting(opts: seq<Opt>, negated: bool, a: string): (fits: seq<Opt>)
  {
    if opts == [] then []
    else
      var last := opts[|opts| - 1];
      Fitting(opts[..|opts| - 1], negated, a) + if Fits(last, negated, a) then [last] else []
  }

  lemma {:induction false} CandidatesFit(opts: seq<Opt>, negated: bool, a: string, n: nat)
    requires n <= |opts|
    ensures |Candidates(opts, negated, a, n)| == |Fitting(opts[..n], negated, a)|
  {
    if n > 0 {
      CandidatesFit(opts, negated, a, n - 1);
      assert opts[..n][..n - 1] == opts[..n - 1];
    }
  }

  lemma {:induction false} FittingCounts(opts: seq<Opt>, negated: bool, a: string, o: Opt)
    ensures multiset(Fitting(opts, negated, a))[o] == if Fits(o, negated, a) then multiset(opts)[o] else 0
  {
    hide Fits;
    if opts != [] {
      var n := |opts| - 1;
      FittingCounts(opts[..n], negated, a, o);
      assert opts == opts[..n] + [opts[n]];
    }
  }

  /** Nor does it matter for how many options the text could abbreviate: the same options fit. */
  lemma AmbiguityIsSame(opts: seq<Opt>, opts': seq<Opt>, negated: bool, a: string)
    requires multiset(opts) == multiset(opts')
    ensures multiset(Fitting(opts, negated, a)) == multiset(Fitting(opts', negated, a))
    ensures |Candidates(opts, negated, a, |opts|)| == |Candidates(opts', negated, a, |opts'|)|
  {
    hide Fitting, Candidates, Fits;
    var f, f' := Fitting(opts, negated, a), Fitting(opts', negated, a);
    forall o
      ensures multiset(f)[o] == multiset(f')[o]
    {
      FittingCounts(opts, negated, a, o);
      FittingCounts(opts', negated, a, o);
    }
    assert multiset(f) == multiset(f');
    assert |multiset(f)| == |f| && |multiset(f')| == |f'|;
    CandidatesFit(opts, negated, a, |opts|);
    CandidatesFit(opts', negated, a, |opts'|);
    assert opts[..|opts|] == opts && opts'[..|opts'|] == opts';
  }
}
