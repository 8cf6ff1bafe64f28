/** Hierarchical element names such as "a/b/c": their byte order and their tree structure. */
module Names {

  /** The order of String::compare: bytes first, then length. Only the sign matters. */
  function Compare(a: string, b: string): (r: int)
  {
    if a == [] || b == [] then |a| - |b|
    else if a[0] != b[0] then a[0] as int - b[0] as int
    else Compare(a[1..], b[1..])
  }

  /** The order of strings by their first difference, or by one continuing the other. */
  ghost predicate Precedes(a: string, b: string)
  {
    || a < b
    || exists i :: 0 <= i < |a| && i < |b| && a[..i] == b[..i] && a[i] < b[i]
  }

  lemma PrecedesBehind(a: string, b: string)
    requires a != [] && b != [] && a[0] == b[0]
    ensures Precedes(a[1..], b[1..]) ==> Precedes(a, b)
  {
    var s, t := a[1..], b[1..];
    if i :| 0 <= i < |s| && i < |t| && s[..i] == t[..i] && s[i] < t[i] {
      assert a[..i + 1] == [a[0]] + s[..i] && b[..i + 1] == [b[0]] + t[..i];
      assert a[i + 1] < b[i + 1];
    }
  }

  lemma PrecedesWithin(a: string, b: string)
    requires a != [] && b != [] && a[0] == b[0]
    ensures Precedes(a, b) ==> Precedes(a[1..], b[1..])
  {
    var s, t := a[1..], b[1..];
    if i :| 0 <= i < |a| && i < |b| && a[..i] == b[..i] && a[i] < b[i] {
      assert i > 0 && s[..i - 1] == a[..i][1..] && t[..i - 1] == b[..i][1..];
      assert s[i - 1] < t[i - 1];
    } else if a < b {
      assert s == b[..|a|][1..];
    }
  }

  lemma PrecedesAtOnce(a: string, b: string)
    requires a != [] && b != [] && a[0] != b[0]
    ensures Precedes(a, b) <==> a[0] < b[0]
  {
    assert a[..0] == b[..0];
    forall i | 0 < i < |a| && i < |b|
      ensures a[..i] != b[..i]
    {
      assert a[..i][0] == a[0] && b[..i][0] == b[0];
    }
  }

  lemma {:induction false} CompareIs(a: string, b: string)
    ensures Compare(a, b) < 0 <==> Precedes(a, b)
  {
    if a != [] && b != [] {
      hide Precedes;
      if a[0] == b[0] {
        CompareIs(a[1..], b[1..]);
        PrecedesBehind(a, b);
        PrecedesWithin(a, b);
      } else {
        PrecedesAtOnce(a, b);
      }
    }
  }

  lemma {:induction false} CompareFlips(a: string, b: string)
    ensures Compare(a, b) == -Compare(b, a)
    ensures Compare(a, b) == 0 <==> a == b
  {
    if a != [] && b != [] && a[0] == b[0] {
      CompareFlips(a[1..], b[1..]);
      assert a == [a[0]] + a[1..] && b == [b[0]] + b[1..];
    }
  }

  lemma {:induction false} CompareTransitive(a: string, b: string, c: string)
    requires Compare(a, b) <= 0 && Compare(b, c) <= 0
    ensures Compare(a, c) <= 0
    ensures Compare(a, b) < 0 || Compare(b, c) < 0 ==> Compare(a, c) < 0
  {
    if a != [] && b != [] && c != [] && a[0] == b[0] == c[0] {
      CompareTransitive(a[1..], b[1..], c[1..]);
    }
  }

  lemma {:induction false} CompareAfterPrefix(p: string, a: string, b: string)
    ensures Compare(p + a, p + b) == Compare(a, b)
  {
    if p == [] {
      assert p + a == a && p + b == b;
    } else {
      assert (p + a)[1..] == p[1..] + a && (p + b)[1..] == p[1..] + b;
      CompareAfterPrefix(p[1..], a, b);
    }
  }

  /** Only strings starting with p lie between p and a string starting with p. */
  lemma {:induction false} BetweenSharesPrefix(p: string, s: string, t: string)
    requires p <= t
    requires Compare(p, s) <= 0 && Compare(s, t) <= 0
    ensures p <= s
  {
    if p != [] {
      assert s != [] && p[0] == s[0] == t[0];
      BetweenSharesPrefix(p[1..], s[1..], t[1..]);
    }
  }

  // ---------------------------------------------------------------- the tree of names

  predicate LetterOrSlash(c: char)
  {
    'A' <= c <= 'Z' || 'a' <= c <= 'z' || '0' <= c <= '9' || c == '_' || c == '@' || c == '/'
  }

  /** Click identifiers (cp_is_click_id): nonempty components separated by single slashes. */
  predicate ValidName(s: string)
  {
    && s != [] && s[0] != '/' && s[|s| - 1] != '/'
    && (forall i :: 0 <= i < |s| ==> LetterOrSlash(s[i]))
    && (forall i :: 0 <= i < |s| - 1 && s[i] == '/' ==> s[i + 1] != '/')
  }

  /** The rightmost slash, or -1. */
  function FindRight(s: string): (k: int)
    ensures -1 <= k < |s|
    ensures k >= 0 ==> s[k] == '/'
    ensures forall i :: k < i < |s| ==> s[i] != '/'
  {
    if s == [] then -1
    else if s[|s| - 1] == '/' then |s| - 1
    else FindRight(s[..|s| - 1])
  }

  /** Name n lies in the directory p or deeper; the empty name is the root of all. */
  predicate Below(n: string, p: string)
  {
    if p == [] then n != [] else p < n && n[|p|] == '/'
  }

  /** The directory an entry stands in. */
  function Parent(n: string): (p: string)
    requires n != []
    ensures |p| < |n|
    ensures ValidName(n) ==> Below(n, p) && (p == [] || ValidName(p))
  {
    var slash := FindRight(n);
    if slash < 0 then [] else n[..slash]
  }

  /** The name of an entry called c in directory p. */
  function Join(p: string, c: string): (n: string)
  {
    if p == [] then c else p + "/" + c
  }

  lemma BelowComparesAbove(n: string, p: string)
    requires Below(n, p)
    ensures Compare(p, n) < 0
  {
    CompareAfterPrefix(p, [], n[|p|..]);
    assert n == p + n[|p|..] && p == p + [];
  }

  /** Because '/' is below every other character of a name, a name that sorts before some name
      under p/ and starts with p is p itself or lies under p/ too. */
  lemma SlashIsLeast(p: string, s: string, t: string)
    requires p != [] && p <= s && ValidName(s)
    requires Below(t, p) && Compare(s, t) <= 0
    ensures s == p || Below(s, p)
  {
    CompareAfterPrefix(p, s[|p|..], t[|p|..]);
    assert s == p + s[|p|..] && t == p + t[|p|..];
    if |s| > |p| {
      assert LetterOrSlash(s[|p|]);
    }
  }

  lemma BelowTransitive(n: string, p: string, q: string)
    requires Below(n, p) && Below(p, q)
    ensures Below(n, q)
  {
  }

  /** Two directories above the same name are equal or one is above the other. */
  lemma AboveIsChain(n: string, p: string, q: string)
    requires Below(n, p) && Below(n, q)
    ensures |p| < |q| ==> Below(q, p)
    ensures |p| == |q| ==> p == q
  {
    assert p == n[..|p|] && q == n[..|q|];
  }

  lemma AboveIsValid(n: string, p: string)
    requires ValidName(n) && Below(n, p) && p != []
    ensures ValidName(p)
  {
    assert forall i :: 0 <= i < |p| ==> p[i] == n[i];
  }

  /** The parent is the lowest of the directories above a name. */
  lemma ParentIsLowest(n: string, p: string)
    requires ValidName(n) && Below(n, p)
    ensures p == Parent(n) || Below(Parent(n), p)
  {
    if p != [] {
      assert n[|p|] == '/';
      AboveIsChain(n, p, Parent(n));
    } else if Parent(n) != [] {
    }
  }

  lemma JoinParent(n: string)
    requires ValidName(n)
    ensures var c := if Parent(n) == [] then n else n[|Parent(n)| + 1..];
            n == Join(Parent(n), c) && '/' !in c && c != []
  {
    var slash := FindRight(n);
    if slash >= 0 {
      assert n == n[..slash] + "/" + n[slash + 1..];
    }
  }

  lemma ParentJoin(p: string, c: string)
    requires c != [] && '/' !in c
    ensures Join(p, c) != [] && Parent(Join(p, c)) == p
  {
    var n := Join(p, c);
    var slash := FindRight(n);
    if p != [] {
      assert n[|p|] == '/';
      assert forall i :: |p| < i < |n| ==> n[i] == c[i - |p| - 1];
      assert slash == |p|;
      assert n[..|p|] == p;
    }
  }
}
