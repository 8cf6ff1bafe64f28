/** ClickIno (click/lib/ino.cc): a router's element names as one sorted array that encodes a
    directory tree. Entry 0 is the root; a directory is followed by everything below it. */
module Ino {
  import opened Common
  import opened Names
  import Qsort

  datatype Entry = Entry(name: string, elementnoPlus1: nat, xindex: nat, skip: nat, fake: bool)

  /** Assignment to a uint16_t field. */
  function U16(v: nat): (r: nat)
  {
    v % 0x1_0000
  }

  const ROOT := Entry([], 0, 0, 0, false)

  function EntryCompare(a: Entry, b: Entry): (r: int)
  {
    Compare(a.name, b.name)
  }

  lemma EntryCompareIsPreorder()
    ensures Qsort.TotalPreorder(EntryCompare)
  {
    forall x: Entry, y: Entry
      ensures EntryCompare(x, y) < 0 <==> EntryCompare(y, x) > 0
    {
      CompareFlips(x.name, y.name);
    }
    forall x: Entry, y: Entry, z: Entry | EntryCompare(x, y) <= 0 && EntryCompare(y, z) <= 0
      ensures EntryCompare(x, z) <= 0
    {
      CompareTransitive(x.name, y.name, z.name);
    }
  }

  // ---------------------------------------------------------------- what the table should be

  /** Some entry other than the root is called p. */
  ghost predicate HasName(t: seq<Entry>, p: string)
  {
    exists k :: 1 <= k < |t| && t[k].name == p
  }

  ghost predicate DistinctNames(t: seq<Entry>)
  {
    forall j, k :: 1 <= j < k < |t| ==> t[j].name != t[k].name
  }

  /** The first n names are in strictly increasing order. */
  ghost predicate Ascending(t: seq<Entry>, n: nat)
  {
    n <= |t| && forall j, k :: 0 <= j < k < n ==> Compare(t[j].name, t[k].name) < 0
  }

  /** Every directory above n has an entry. */
  ghost predicate DirectoriesIn(t: seq<Entry>, n: string)
  {
    forall p :: p != [] && Below(n, p) ==> HasName(t, p)
  }

  /** The element names and the directories above them. */
  function AllNames(names: seq<string>): (all: set<string>)
  {
    set n, k | n in names && 0 < k <= |n| && (k == |n| || n[k] == '/') :: n[..k]
  }

  /** What an entry other than the root is: an element, under its number, or a made-up directory
      that some element needs, under a number past the elements. */
  ghost predicate EntryOk(e: Entry, names: seq<string>, n: nat)
  {
    && ValidName(e.name)
    && if e.fake then
         && e.name !in names
         && (exists m :: m in names && Below(m, e.name))
         && (exists k :: |names| < k < n && e.elementnoPlus1 == U16(k))
       else
         exists k :: 1 <= k <= |names| && names[k - 1] == e.name && e.elementnoPlus1 == U16(k)
  }

  /** While sixteen bits suffice, the entries carry the numbers 1 to |t| - 1, each once. */
  ghost predicate Numbered(t: seq<Entry>)
  {
    |t| <= 0x1_0000 ==>
      && (forall i :: 1 <= i < |t| ==> 1 <= t[i].elementnoPlus1 < |t|)
      && (forall i, j :: 1 <= i < j < |t| ==> t[i].elementnoPlus1 != t[j].elementnoPlus1)
      && (forall k :: 1 <= k < |t| ==> HasNumber(t, k))
  }

  ghost predicate HasNumber(t: seq<Entry>, k: nat)
  {
    exists i :: 1 <= i < |t| && t[i].elementnoPlus1 == k
  }

  /** The root, all elements and some of the directories they need, in any order and each once. */
  ghost predicate Populated(t: seq<Entry>, names: seq<string>)
  {
    && |t| >= 1 && t[0].name == [] && t[0].elementnoPlus1 == 0 && !t[0].fake
    && DistinctNames(t)
    && (forall k :: 1 <= k < |t| ==> EntryOk(t[k], names, |t|))
    && (forall m :: m in names ==> HasName(t, m))
    && Numbered(t)
  }

  /** The root, all elements and all the directories they need. */
  ghost predicate Complete(t: seq<Entry>, names: seq<string>)
  {
    && Populated(t, names)
    && (forall k :: 1 <= k < |t| ==> DirectoriesIn(t, t[k].name))
  }

  /** skip[i] is the number of entries below i, and they follow it immediately. */
  ghost predicate Skips(t: seq<Entry>)
  {
    forall i :: 0 <= i < |t| ==> SkipIs(t, i, t[i].skip)
  }

  ghost predicate SkipIs(t: seq<Entry>, i: nat, skip: nat)
    requires i < |t|
  {
    && i + skip < |t|
    && (forall j :: i < j < |t| ==> (j <= i + skip <==> Below(t[j].name, t[i].name)))
  }

  /** xindex inverts elementnoPlus1. */
  ghost predicate Inverse(t: seq<Entry>)
  {
    && (forall i :: 0 <= i < |t| ==> t[i].elementnoPlus1 < |t| && t[t[i].elementnoPlus1].xindex == i)
    && (forall k :: 0 <= k < |t| ==> t[k].xindex < |t| && t[t[k].xindex].elementnoPlus1 == k)
  }

  // ---------------------------------------------------------------- sorting

  lemma SortKeepsDistinct(u: seq<Entry>, t: seq<Entry>)
    requires 1 <= |u| && Qsort.Rearranged(u, t, 1, |u|)
    requires DistinctNames(u) && forall k :: 1 <= k < |u| ==> u[k].name != u[0].name
    ensures DistinctNames(t)
  {
    forall i, j | 1 <= i < j < |t|
      ensures t[i].name != t[j].name
    {
      Qsort.RearrangedOrigin(u, t, 1, |u|, i);
      Qsort.RearrangedOrigin(u, t, 1, |u|, j);
      var a :| 1 <= a < |u| && u[a] == t[i];
      var b :| 1 <= b < |u| && u[b] == t[j];
      if t[i].name == t[j].name {
        CountTwice(t, i, j);
        CountOnce(u, a);
      }
    }
  }

  lemma SortAscends(t: seq<Entry>)
    requires |t| >= 1 && t[0].name == [] && DistinctNames(t)
    requires forall k :: 1 <= k < |t| ==> ValidName(t[k].name)
    requires Qsort.Ordered(t, 1, |t|, EntryCompare)
    ensures Ascending(t, |t|)
  {
    forall j, k | 0 <= j < k < |t|
      ensures Compare(t[j].name, t[k].name) < 0
    {
      CompareFlips(t[j].name, t[k].name);
      if j > 0 {
        assert EntryCompare(t[j], t[k]) <= 0;
      }
    }
  }

  lemma SortKeepsNames(u: seq<Entry>, t: seq<Entry>, p: string)
    requires 1 <= |u| && Qsort.Rearranged(u, t, 1, |u|)
    requires HasName(u, p)
    ensures HasName(t, p)
  {
    var k :| 1 <= k < |u| && u[k].name == p;
    Qsort.RearrangedOrigin(t, u, 1, |u|, k);
  }

  lemma SortKeepsNumbers(u: seq<Entry>, t: seq<Entry>)
    requires 1 <= |u| && Qsort.Rearranged(u, t, 1, |u|)
    requires DistinctNames(t) && Numbered(u)
    ensures Numbered(t)
  {
    if |u| <= 0x1_0000 {
      forall i | 1 <= i < |t|
        ensures exists a :: 1 <= a < |u| && u[a] == t[i]
      {
        Qsort.RearrangedOrigin(u, t, 1, |u|, i);
      }
      forall k | 1 <= k < |t|
        ensures HasNumber(t, k)
      {
        assert HasNumber(u, k);
        var a :| 1 <= a < |u| && u[a].elementnoPlus1 == k;
        Qsort.RearrangedOrigin(t, u, 1, |u|, a);
      }
    }
  }

  lemma SortKeepsComplete(u: seq<Entry>, t: seq<Entry>, names: seq<string>)
    requires Complete(u, names)
    requires Qsort.Rearranged(u, t, 1, |u|)
    ensures Complete(t, names)
  {
    SortKeepsDistinct(u, t);
    SortKeepsNumbers(u, t);
    forall k | 1 <= k < |t|
      ensures EntryOk(t[k], names, |t|) && DirectoriesIn(t, t[k].name)
    {
      Qsort.RearrangedOrigin(u, t, 1, |u|, k);
      forall p | p != [] && Below(t[k].name, p)
        ensures HasName(t, p)
      {
        SortKeepsNames(u, t, p);
      }
    }
    forall m | m in names
      ensures HasName(t, m)
    {
      SortKeepsNames(u, t, m);
    }
  }

  // ---------------------------------------------------------------- adding directories

  /** The first nelem entries are the root and the elements in order; those before i have all
      their directories, i itself has those longer than slash, and nothing else was added. */
  ghost predicate Adding(t: seq<Entry>, nelem: nat, i: nat, slash: int)
  {
    && 1 <= i <= nelem <= |t| && t[0].name == []
    && Ascending(t, nelem)
    && DistinctNames(t)
    && (forall k :: 1 <= k < |t| ==> ValidName(t[k].name))
    && (forall j :: 1 <= j < i ==> DirectoriesIn(t, t[j].name))
    && (forall k :: nelem <= k < |t| ==> AddedFor(t, nelem, i, slash, t[k].name))
    && (i < nelem ==> LongDirectoriesIn(t, t[i].name, slash))
  }

  /** p is above an element before i, or above element i and longer than slash. */
  ghost predicate AddedFor(t: seq<Entry>, nelem: nat, i: nat, slash: int, p: string)
    requires i <= nelem <= |t|
  {
    || (exists j :: 1 <= j < i && Below(t[j].name, p))
    || (i < nelem && Below(t[i].name, p) && |p| > slash)
  }

  ghost predicate LongDirectoriesIn(t: seq<Entry>, n: string, slash: int)
  {
    forall p :: p != [] && Below(n, p) && |p| > slash ==> HasName(t, p)
  }

  /** A string that is not after one of the elements before i, yet a prefix of element i, is a
      prefix of the predecessor of i. */
  lemma PredecessorSharesPrefix(t: seq<Entry>, i: nat, j: nat, p: string)
    requires Ascending(t, i + 1) && j < i
    requires p <= t[i].name && Compare(p, t[j].name) <= 0
    ensures p <= t[i - 1].name
  {
    CompareFlips(t[j].name, t[j].name);
    CompareTransitive(p, t[j].name, t[i - 1].name);
    BetweenSharesPrefix(p, t[i - 1].name, t[i].name);
  }

  /** A directory of the next name that its predecessor does not share has no entry yet. */
  lemma DirectoryIsNew(t: seq<Entry>, nelem: nat, i: nat, slash: nat)
    requires Adding(t, nelem, i, slash) && i < nelem
    requires slash < |t[i].name| && t[i].name[slash] == '/'
    requires !(t[i].name[..slash] <= t[i - 1].name)
    ensures !HasName(t, t[i].name[..slash])
  {
    var p := t[i].name[..slash];
    assert |p| == slash;
    assert Below(t[i].name, p) by {
      assert ValidName(t[i].name);
    }
    BelowComparesAbove(t[i].name, p);
    CompareFlips(p, p);
    CompareFlips(t[i].name, p);
    forall k | 1 <= k < |t| && t[k].name == p
      ensures false
    {
      if k >= nelem {
        assert AddedFor(t, nelem, i, slash, p);
        var j :| 1 <= j < i && Below(t[j].name, p);
        BelowComparesAbove(t[j].name, p);
        PredecessorSharesPrefix(t, i, j, p);
      } else {
        assert k < i;
        PredecessorSharesPrefix(t, i, k, p);
      }
    }
  }

  /** Once the predecessor shares a directory, all directories above the next name have entries. */
  lemma DirectoriesKnown(t: seq<Entry>, nelem: nat, i: nat, slash: int)
    requires Adding(t, nelem, i, slash) && i < nelem
    requires -1 <= slash < |t[i].name|
    requires slash >= 0 ==> t[i].name[slash] == '/' && t[i].name[..slash] <= t[i - 1].name
    ensures DirectoriesIn(t, t[i].name)
  {
    var n, last := t[i].name, t[i - 1].name;
    if slash >= 0 {
      var q := n[..slash];
      assert ValidName(n);
      assert Below(n, q) && q != [] && i > 1;
      SlashIsLeast(q, last, n);
      forall p | p != [] && Below(n, p) && |p| <= slash
        ensures HasName(t, p)
      {
        AboveIsChain(n, p, q);
        assert p == last || Below(last, p);
      }
    }
  }

  /** Adding one missing directory. */
  lemma AddDirectory(t: seq<Entry>, names: seq<string>, i: nat, slash: nat, e: Entry)
    requires Populated(t, names) && Adding(t, |names| + 1, i, slash) && i <= |names|
    requires |names| < |t| && !t[i].fake
    requires slash < |t[i].name| && t[i].name[slash] == '/'
    requires !(t[i].name[..slash] <= t[i - 1].name)
    requires e.name == t[i].name[..slash] && e.elementnoPlus1 == U16(|t|) && e.fake
    ensures Populated(t + [e], names)
    ensures Adding(t + [e], |names| + 1, i, FindRight(e.name))
  {
    hide Adding, Numbered, EntryOk, HasName;
    var t' := t + [e];
    assert forall k :: 0 <= k < |t| ==> t'[k] == t[k];
    DirectoryIsNew(t, |names| + 1, i, slash);
    AddKeepsNames(t, e);
    AddKeepsDistinct(t, e);
    AddKeepsNumbers(t, e);
    AddKeepsAdding(t, |names| + 1, i, slash, e);
    NewEntryOk(t[i], e, names, |t|, slash);
    forall k | 1 <= k < |t'|
      ensures EntryOk(t'[k], names, |t'|)
    {
      if k < |t| {
        EntryOkGrows(t[k], names, |t|);
      }
    }
  }

  lemma EntryOkGrows(e: Entry, names: seq<string>, n: nat)
    requires EntryOk(e, names, n)
    ensures EntryOk(e, names, n + 1)
  {
    if e.fake {
      var k :| |names| < k < n && e.elementnoPlus1 == U16(k);
      assert |names| < k < n + 1;
    }
  }

  lemma NewEntryOk(d: Entry, e: Entry, names: seq<string>, n: nat, slash: nat)
    requires EntryOk(d, names, n) && !d.fake && |names| < n
    requires slash < |d.name| && d.name[slash] == '/' && e.name == d.name[..slash]
    requires e.name !in names && e.elementnoPlus1 == U16(n) && e.fake
    ensures EntryOk(e, names, n + 1)
  {
    assert Below(d.name, e.name);
    AboveIsValid(d.name, e.name);
  }

  lemma AddKeepsNames(t: seq<Entry>, e: Entry)
    requires |t| >= 1
    ensures forall p :: HasName(t, p) ==> HasName(t + [e], p)
    ensures HasName(t + [e], e.name)
  {
    var t' := t + [e];
    assert t'[|t|] == e;
    forall p | HasName(t, p)
      ensures HasName(t', p)
    {
      var k :| 1 <= k < |t| && t[k].name == p;
      assert t'[k].name == p;
    }
  }

  lemma AddKeepsNumbers(t: seq<Entry>, e: Entry)
    requires |t| >= 1 && Numbered(t) && e.elementnoPlus1 == U16(|t|)
    ensures Numbered(t + [e])
  {
    var t' := t + [e];
    if |t'| <= 0x1_0000 {
      assert t'[|t|].elementnoPlus1 == |t|;
      forall k | 1 <= k < |t'|
        ensures HasNumber(t', k)
      {
        if k < |t| {
          assert HasNumber(t, k);
          var i :| 1 <= i < |t| && t[i].elementnoPlus1 == k;
          assert t'[i].elementnoPlus1 == k;
        }
      }
    }
  }

  lemma AddKeepsAdding(t: seq<Entry>, nelem: nat, i: nat, slash: nat, e: Entry)
    requires Adding(t, nelem, i, slash) && i < nelem
    requires slash < |t[i].name| && t[i].name[slash] == '/'
    requires e.name == t[i].name[..slash] && !HasName(t, e.name)
    ensures Adding(t + [e], nelem, i, FindRight(e.name))
  {
    hide HasName;
    var t', n, slash' := t + [e], t[i].name, FindRight(e.name);
    assert forall k :: 0 <= k < |t| ==> t'[k] == t[k];
    assert t'[|t|] == e;
    AddKeepsNames(t, e);
    assert ValidName(n);
    assert Below(n, e.name);
    AboveIsValid(n, e.name);
    forall k | nelem <= k < |t'|
      ensures AddedFor(t', nelem, i, slash', t'[k].name)
    {
      if k < |t| {
        assert AddedFor(t, nelem, i, slash, t[k].name);
      }
    }
    forall p | p != [] && Below(n, p) && |p| > slash'
      ensures HasName(t', p)
    {
      if |p| <= slash {
        AboveIsChain(n, p, e.name);
      }
    }
    AddKeepsDistinct(t, e);
  }

  lemma AddKeepsDistinct(t: seq<Entry>, e: Entry)
    requires DistinctNames(t) && !HasName(t, e.name)
    ensures DistinctNames(t + [e])
  {
  }

  /** Turning to the next element. */
  lemma AddingNext(t: seq<Entry>, nelem: nat, i: nat, slash: int)
    requires Adding(t, nelem, i, slash) && i < nelem
    requires DirectoriesIn(t, t[i].name)
    ensures Adding(t, nelem, i + 1, if i + 1 < nelem then FindRight(t[i + 1].name) else 0)
  {
    if i + 1 < nelem {
      var n := t[i + 1].name;
      forall p | p != [] && Below(n, p)
        ensures |p| <= FindRight(n)
      {
        assert n[|p|] == '/';
      }
    }
  }

  lemma AddingDone(t: seq<Entry>, names: seq<string>)
    requires Populated(t, names) && Adding(t, |names| + 1, |names| + 1, 0)
    ensures Complete(t, names)
  {
    forall k, p | 1 <= k < |t| && p != [] && Below(t[k].name, p)
      ensures HasName(t, p)
    {
      if k > |names| {
        assert AddedFor(t, |names| + 1, |names| + 1, 0, t[k].name);
        var j :| 1 <= j < |names| + 1 && Below(t[j].name, t[k].name);
        BelowTransitive(t[j].name, t[k].name, p);
      }
    }
  }

  // ---------------------------------------------------------------- skip counts

  /** The prefix assertion of the skip loop: whatever continues a run of entries below i with a
      slash in the right place is itself below i. */
  lemma SkipAssertion(t: seq<Entry>, names: seq<string>, i: nat, j: nat)
    requires Complete(t, names) && Ascending(t, |t|)
    requires 1 <= i < j < |t|
    requires forall k :: i < k < j ==> Below(t[k].name, t[i].name)
    requires |t[j].name| > |t[i].name| && t[j].name[|t[i].name|] == '/'
    ensures t[j].name[..|t[i].name|] == t[i].name
  {
    var n, len := t[i].name, |t[i].name|;
    var p := t[j].name[..len];
    if p != n {
      CompleteAt(t, names, i);
      CompleteAt(t, names, j);
      hide Complete, ValidName;
      assert Below(t[j].name, p);
      assert HasName(t, p);
      var k :| 1 <= k < |t| && t[k].name == p;
      BelowComparesAbove(t[j].name, p);
      CompareFlips(p, t[j].name);
      CompareFlips(p, p);
      assert k < j;
      assert !Below(p, n);
      assert k < i;
      // p is before n, of the same length, yet p/... is after n
      BetweenSharesPrefix(p, n, t[j].name);
    }
  }

  lemma CompleteAt(t: seq<Entry>, names: seq<string>, i: nat)
    requires Complete(t, names) && 1 <= i < |t|
    ensures ValidName(t[i].name) && DirectoriesIn(t, t[i].name)
  {
    assert EntryOk(t[i], names, |t|);
  }

  /** Where the run ends, nothing further on is below i. */
  lemma SkipEnds(t: seq<Entry>, i: nat, j: nat, k: nat)
    requires Ascending(t, |t|) && 1 <= i < j < k < |t|
    requires ValidName(t[i].name) && ValidName(t[j].name)
    requires !(|t[j].name| > |t[i].name| && t[j].name[|t[i].name|] == '/')
    ensures !Below(t[k].name, t[i].name)
  {
    if Below(t[k].name, t[i].name) {
      BetweenSharesPrefix(t[i].name, t[j].name, t[k].name);
      SlashIsLeast(t[i].name, t[j].name, t[k].name);
      CompareFlips(t[i].name, t[j].name);
    }
  }

  /** t and u agree but for skip counts and indices. */
  ghost predicate SameEntries(t: seq<Entry>, u: seq<Entry>)
  {
    && |t| == |u|
    && (forall k :: 0 <= k < |t| ==> u[k].name == t[k].name && u[k].fake == t[k].fake
                                     && u[k].elementnoPlus1 == t[k].elementnoPlus1)
  }

  lemma SameEntriesComplete(t: seq<Entry>, u: seq<Entry>, names: seq<string>)
    requires SameEntries(t, u) && Complete(t, names) && Ascending(t, |t|)
    ensures Complete(u, names) && Ascending(u, |u|)
  {
    forall p | HasName(t, p)
      ensures HasName(u, p)
    {
      var k :| 1 <= k < |t| && t[k].name == p;
      assert u[k].name == p;
    }
    forall n | HasNumber(t, n)
      ensures HasNumber(u, n)
    {
      var k :| 1 <= k < |t| && t[k].elementnoPlus1 == n;
      assert u[k].elementnoPlus1 == n;
    }
    forall k | 1 <= k < |u|
      ensures EntryOk(u[k], names, |u|) && DirectoriesIn(u, u[k].name)
    {
      assert EntryOk(t[k], names, |t|) && DirectoriesIn(t, t[k].name);
    }
  }

  /** The 16-bit value v stands for the number of entries below i. */
  ghost predicate SkipStored(t: seq<Entry>, i: nat, v: nat)
    requires i < |t|
  {
    exists s: nat :: SkipIs(t, i, s) && v == U16(s)
  }

  lemma SkipFound(t: seq<Entry>, names: seq<string>, i: nat, j: nat)
    requires Complete(t, names) && Ascending(t, |t|)
    requires 1 <= i < j <= |t|
    requires forall k :: i < k < j ==> Below(t[k].name, t[i].name)
    requires j < |t| ==> !(|t[j].name| > |t[i].name| && t[j].name[|t[i].name|] == '/')
    ensures SkipIs(t, i, j - i - 1)
  {
    forall k | j <= k < |t|
      ensures !Below(t[k].name, t[i].name)
    {
      assert EntryOk(t[i], names, |t|) && EntryOk(t[j], names, |t|);
      if k > j {
        SkipEnds(t, i, j, k);
      }
    }
  }

  lemma IsBelow(n: string, p: string)
    requires |n| > |p| && n[..|p|] == p && n[|p|] == '/'
    ensures Below(n, p)
  {
  }

  /** The inner skip loop: count the entries that follow i and lie below it. */
  method CountBelow(a: array<Entry>, n: nat, i: nat, ghost names: seq<string>)
    requires 1 <= i < n <= a.Length
    requires Complete(a[..n], names) && Ascending(a[..n], n)
    requires a[i].skip == 0
    modifies a
    ensures a[..] == old(a[..])[i := old(a[i]).(skip := a[i].skip)]
    ensures SkipStored(old(a[..n]), i, a[i].skip)
  {
    hide Complete, Ascending, Below;
    ghost var t, s := a[..n], a[..];
    var name := a[i].name;
    var j := i + 1;
    while j < n && |a[j].name| > |name| && a[j].name[|name|] == '/'
      invariant i < j <= n
      invariant a[..] == s[i := s[i].(skip := U16(j - i - 1))]
      invariant forall k :: i < k < j ==> Below(t[k].name, name)
    {
      assert a[j] == t[j];
      SkipAssertion(t, names, i, j);
      IsBelow(t[j].name, name);
      a[i] := a[i].(skip := U16(a[i].skip + 1));
      j := j + 1;
    }
    assert j < n ==> a[j] == t[j];
    SkipFound(t, names, i, j);
  }

  /** The skip loop: each count is right, up to the width of the field. */
  method FillSkips(a: array<Entry>, n: nat, ghost names: seq<string>)
    requires 1 <= n <= a.Length
    requires Complete(a[..n], names) && Ascending(a[..n], n)
    requires forall k :: 1 <= k < n ==> a[k].skip == 0
    modifies a
    ensures SameEntries(old(a[..n]), a[..n])
    ensures forall i :: 0 <= i < n ==> SkipStored(old(a[..n]), i, a[i].skip)
    ensures a[0].skip == U16(n - 1) && a[0].xindex == old(a[0].xindex)
  {
    hide SkipStored, Complete, Ascending;
    ghost var t := a[..n];
    RootSkip(t, names);
    a[0] := a[0].(skip := U16(n - 1));
    var i := 1;
    while i < n - 1
      invariant 1 <= i && (i <= n - 1 || n == 1)
      invariant SameEntries(t, a[..n])
      invariant a[0] == t[0].(skip := U16(n - 1))
      invariant forall k :: 0 <= k < i && k < n ==> SkipStored(t, k, a[k].skip)
      invariant forall k :: i <= k < n ==> a[k].skip == 0
    {
      ghost var u := a[..n];
      SameEntriesComplete(t, u, names);
      CountBelow(a, n, i, names);
      SameEntriesSkip(t, u, i, a[i].skip);
      i := i + 1;
    }
    if n > 1 {
      LastSkip(t);
    }
  }

  lemma RootSkip(t: seq<Entry>, names: seq<string>)
    requires Complete(t, names)
    ensures SkipStored(t, 0, U16(|t| - 1))
  {
    forall j | 0 < j < |t|
      ensures Below(t[j].name, t[0].name)
    {
      assert EntryOk(t[j], names, |t|);
    }
    assert SkipIs(t, 0, |t| - 1);
  }

  lemma LastSkip(t: seq<Entry>)
    requires |t| > 1
    ensures SkipStored(t, |t| - 1, 0)
  {
    assert SkipIs(t, |t| - 1, 0);
  }

  lemma SameEntriesSkip(t: seq<Entry>, u: seq<Entry>, i: nat, v: nat)
    requires SameEntries(t, u) && i < |t|
    ensures SkipStored(t, i, v) <==> SkipStored(u, i, v)
  {
    assert forall s: nat :: SkipIs(t, i, s) <==> SkipIs(u, i, s);
  }

  // ---------------------------------------------------------------- indices

  lemma NumbersInRange(t: seq<Entry>, names: seq<string>)
    requires Complete(t, names)
    ensures forall k :: 0 <= k < |t| ==> t[k].elementnoPlus1 < |t|
  {
    forall k | 1 <= k < |t|
      ensures t[k].elementnoPlus1 < |t|
    {
      assert EntryOk(t[k], names, |t|);
    }
  }

  /** u is t with the positions of the first i entries recorded under their numbers. */
  ghost predicate Indexed(t: seq<Entry>, u: seq<Entry>, i: nat)
    requires forall k :: 0 <= k < |t| ==> t[k].elementnoPlus1 < |t|
  {
    && i <= |t|
    && SameEntries(t, u)
    && (forall k :: 0 <= k < |t| ==> u[k].skip == t[k].skip)
    && (|t| <= 0x1_0000 ==> forall k :: 0 <= k < i ==> u[t[k].elementnoPlus1].xindex == k)
    && (forall k :: 1 <= k < i ==> u[t[k].elementnoPlus1].xindex < 0x1_0000)
  }

  lemma IndexStep(t: seq<Entry>, u: seq<Entry>, i: nat)
    requires Numbered(t) && 1 <= i < |t| && t[0].elementnoPlus1 == 0
    requires forall k :: 0 <= k < |t| ==> t[k].elementnoPlus1 < |t|
    requires Indexed(t, u, i)
    ensures var e := t[i].elementnoPlus1;
            |u| == |t| && u[i].elementnoPlus1 == e && Indexed(t, u[e := u[e].(xindex := U16(i))], i + 1)
  {
    hide Numbered;
    var e := t[i].elementnoPlus1;
    var u' := u[e := u[e].(xindex := U16(i))];
    if |t| <= 0x1_0000 {
      forall k | 0 <= k <= i
        ensures u'[t[k].elementnoPlus1].xindex == k
      {
        if k < i {
          NumbersDiffer(t, k, i);
        }
      }
    }
  }

  lemma IndexStart(t: seq<Entry>)
    requires 1 <= |t| && t[0].elementnoPlus1 == 0 && t[0].xindex == 0
    requires forall k :: 0 <= k < |t| ==> t[k].elementnoPlus1 < |t|
    ensures Indexed(t, t, 1)
  {
  }

  lemma IndexEnds(t: seq<Entry>, u: seq<Entry>)
    requires 1 <= |t| && Numbered(t) && t[0].elementnoPlus1 == 0
    requires forall k :: 0 <= k < |t| ==> t[k].elementnoPlus1 < |t|
    requires Indexed(t, u, |t|)
    ensures SameEntries(t, u) && forall k :: 0 <= k < |t| ==> u[k].skip == t[k].skip
    ensures |t| <= 0x1_0000 <==> Inverse(u)
  {
    hide Numbered, Inverse;
    if |t| <= 0x1_0000 {
      InverseFilled(t, u);
    } else {
      InverseOverflows(t, u);
    }
  }

  /** The last loop: record, under each entry's number, where the entry stands. */
  method FillIndices(a: array<Entry>, n: nat, ghost names: seq<string>)
    requires 1 <= n <= a.Length
    requires Complete(a[..n], names) && a[0].xindex == 0
    modifies a
    ensures SameEntries(old(a[..n]), a[..n])
    ensures forall k :: 0 <= k < n ==> a[k].skip == old(a[k].skip)
    ensures n <= 0x1_0000 <==> Inverse(a[..n])
  {
    hide Complete, Numbered, Inverse, Indexed;
    ghost var t, u := a[..n], a[..n];
    NumbersInRange(t, names);
    NumberedComplete(t, names);
    IndexStart(t);
    var i := 1;
    while i < n
      invariant 1 <= i <= n
      invariant u == a[..n]
      invariant Indexed(t, u, i)
    {
      IndexStep(t, u, i);
      var e := a[i].elementnoPlus1;
      a[e] := a[e].(xindex := U16(i));
      u := u[e := u[e].(xindex := U16(i))];
      i := i + 1;
    }
    IndexEnds(t, u);
  }

  lemma NumberedComplete(t: seq<Entry>, names: seq<string>)
    requires Complete(t, names)
    ensures Numbered(t) && t[0].elementnoPlus1 == 0
  {
  }

  lemma NumbersDiffer(t: seq<Entry>, j: nat, k: nat)
    requires Numbered(t) && |t| <= 0x1_0000 && j < k < |t| && t[0].elementnoPlus1 == 0
    ensures t[j].elementnoPlus1 != t[k].elementnoPlus1
  {
  }

  lemma InverseFilled(t: seq<Entry>, u: seq<Entry>)
    requires |t| <= 0x1_0000 && 1 <= |t| && Numbered(t) && t[0].elementnoPlus1 == 0
    requires SameEntries(t, u)
    requires forall k :: 0 <= k < |t| ==> t[k].elementnoPlus1 < |t|
    requires forall k :: 0 <= k < |t| ==> u[t[k].elementnoPlus1].xindex == k
    ensures Inverse(u)
  {
    forall k | 0 <= k < |u|
      ensures u[k].xindex < |u| && u[u[k].xindex].elementnoPlus1 == k
    {
      if k > 0 {
        assert HasNumber(t, k);
        var i :| 1 <= i < |t| && t[i].elementnoPlus1 == k;
        assert u[t[i].elementnoPlus1].xindex == i;
      } else {
        assert u[t[0].elementnoPlus1].xindex == 0;
      }
    }
  }

  /** Sixteen bits do not hold the position of the last of more than 65536 entries. */
  lemma InverseOverflows(t: seq<Entry>, u: seq<Entry>)
    requires |t| > 0x1_0000 && SameEntries(t, u)
    requires forall k :: 0 <= k < |t| ==> t[k].elementnoPlus1 < |t|
    requires forall k :: 1 <= k < |t| ==> u[t[k].elementnoPlus1].xindex < 0x1_0000
    ensures !Inverse(u)
  {
    var k := 0x1_0000;
    assert u[k].elementnoPlus1 == t[k].elementnoPlus1;
    assert u[t[k].elementnoPlus1].xindex < 0x1_0000;
  }

  // ---------------------------------------------------------------- how many entries there are

  ghost function NameSet(t: seq<Entry>, n: nat): set<string>
    requires n <= |t|
  {
    set k | 1 <= k < n :: t[k].name
  }

  lemma {:induction false} DistinctCount(t: seq<Entry>, n: nat)
    requires DistinctNames(t) && 1 <= n <= |t|
    ensures |NameSet(t, n)| == n - 1
  {
    if n == 1 {
      assert NameSet(t, n) == {};
    } else {
      DistinctCount(t, n - 1);
      assert NameSet(t, n) == NameSet(t, n - 1) + {t[n - 1].name};
    }
  }

  lemma InAllNames(names: seq<string>, m: string, p: string)
    requires m in names && p != [] && (p == m || Below(m, p))
    ensures p in AllNames(names)
  {
    assert p == m[..|p|];
  }

  lemma EntryIsNeeded(e: Entry, names: seq<string>, n: nat)
    requires EntryOk(e, names, n)
    ensures e.name in AllNames(names)
  {
    var m := e.name;
    if e.fake {
      m :| m in names && Below(m, e.name);
    }
    InAllNames(names, m, e.name);
  }

  lemma NeededIsPresent(t: seq<Entry>, names: seq<string>, m: string, k: nat)
    requires Complete(t, names)
    requires m in names && 0 < k <= |m| && (k == |m| || m[k] == '/')
    ensures HasName(t, m[..k])
  {
    assert HasName(t, m);
    if k < |m| {
      assert Below(m, m[..k]);
      var i :| 1 <= i < |t| && t[i].name == m;
      assert DirectoriesIn(t, t[i].name);
    } else {
      assert m[..k] == m;
    }
  }

  /** The table has one entry per element or needed directory, and the root. */
  lemma EntryCount(t: seq<Entry>, names: seq<string>)
    requires Complete(t, names)
    ensures NameSet(t, |t|) == AllNames(names)
    ensures |t| == 1 + |AllNames(names)|
  {
    DistinctCount(t, |t|);
    assert NameSet(t, |t|) == AllNames(names) by {
      hide EntryOk, DirectoriesIn, Numbered, DistinctNames;
      forall k | 1 <= k < |t|
        ensures t[k].name in AllNames(names)
      {
        EntryIsNeeded(t[k], names, |t|);
      }
      forall m, k | m in names && 0 < k <= |m| && (k == |m| || m[k] == '/')
        ensures m[..k] in NameSet(t, |t|)
      {
        NeededIsPresent(t, names, m, k);
      }
    }
  }

  // ---------------------------------------------------------------- the class

  /** Distinct, well-formed element names, as a router has them; fewer than an int can count. */
  ghost predicate RouterNames(names: seq<string>)
  {
    && (forall m :: m in names ==> ValidName(m))
    && (forall j, k :: 0 <= j < k < |names| ==> names[j] != names[k])
    && |AllNames(names)| < 0x7FFF_FFFF
  }

  /** Names of one, two, ..., n letters. */
  function ManyNames(n: nat): (names: seq<string>)
    ensures |names| == n
    ensures forall i :: 0 <= i < n ==> names[i] == Letters(i + 1)
  {
    if n == 0 then [] else ManyNames(n - 1) + [Letters(n)]
  }

  function Letters(n: nat): (s: string)
    ensures |s| == n && forall i :: 0 <= i < n ==> s[i] == 'a'
  {
    seq(n, _ => 'a')
  }

  lemma OneMoreName(n: nat)
    requires n > 0
    ensures AllNames(ManyNames(n)) == AllNames(ManyNames(n - 1)) + {Letters(n)}
    ensures Letters(n) !in AllNames(ManyNames(n - 1))
  {
    var names, fewer := ManyNames(n), ManyNames(n - 1);
    forall p | p in AllNames(names)
      ensures p in AllNames(fewer) || p == Letters(n)
    {
      var m, k :| m in names && 0 < k <= |m| && (k == |m| || m[k] == '/') && m[..k] == p;
      assert k == |m| && p == m;
      if m in fewer {
        InAllNames(fewer, m, m);
      }
    }
    forall p | p in AllNames(fewer)
      ensures p in AllNames(names) && |p| < n
    {
      var m, k :| m in fewer && 0 < k <= |m| && (k == |m| || m[k] == '/') && m[..k] == p;
      assert m in names;
    }
    assert names[n - 1] == Letters(n);
    InAllNames(names, Letters(n), Letters(n));
  }

  lemma {:induction false} ManyNamesCount(n: nat)
    ensures |AllNames(ManyNames(n))| == n
  {
    if n == 0 {
      assert AllNames([]) == {};
    } else {
      hide AllNames, ManyNames;
      ManyNamesCount(n - 1);
      OneMoreName(n);
    }
  }

  /** A router can have element names for any number of entries, so for more than sixteen bits count. */
  lemma ManyNamesFit(n: nat)
    requires n < 0x7FFF_FFFF
    ensures RouterNames(ManyNames(n)) && |AllNames(ManyNames(n))| == n
  {
    hide AllNames;
    ManyNamesCount(n);
    var names := ManyNames(n);
    forall m | m in names
      ensures ValidName(m)
    {
      assert forall i :: 0 <= i < |m| ==> m[i] == 'a';
      assert LetterOrSlash('a');
    }
    forall j, k | 0 <= j < k < |names|
      ensures names[j] != names[k]
    {
      assert |names[j]| == j + 1 && |names[k]| == k + 1;
    }
  }

  /** Entries 1 to |names| are the elements in the order given. */
  ghost predicate Listed(t: seq<Entry>, names: seq<string>)
  {
    && |t| == |names| + 1 && t[0] == ROOT
    && (forall k :: 1 <= k < |t| ==> t[k].name == names[k - 1] && t[k].elementnoPlus1 == U16(k)
                                     && t[k].skip == 0 && !t[k].fake)
  }

  lemma ListedNumbered(t: seq<Entry>, names: seq<string>)
    requires Listed(t, names)
    ensures Numbered(t)
  {
    forall k | 1 <= k < |t| && |t| <= 0x1_0000
      ensures HasNumber(t, k)
    {
      assert t[k].elementnoPlus1 == k;
    }
  }

  lemma ListedPopulated(t: seq<Entry>, names: seq<string>)
    requires RouterNames(names) && Listed(t, names)
    ensures Populated(t, names)
  {
    hide Numbered, AllNames, ValidName;
    ListedNumbered(t, names);
    forall k | 1 <= k < |t|
      ensures EntryOk(t[k], names, |t|)
    {
      assert names[k - 1] in names;
    }
    forall m | m in names
      ensures HasName(t, m)
    {
      var k :| 0 <= k < |names| && names[k] == m;
      assert t[k + 1].name == m;
    }
  }

  lemma SortKeepsPopulated(u: seq<Entry>, t: seq<Entry>, names: seq<string>)
    requires Populated(u, names)
    requires Qsort.Rearranged(u, t, 1, |u|)
    ensures Populated(t, names)
  {
    forall k | 1 <= k < |u|
      ensures u[k].name != []
    {
      assert EntryOk(u[k], names, |u|);
    }
    SortKeepsDistinct(u, t);
    SortKeepsNumbers(u, t);
    forall k | 1 <= k < |t|
      ensures EntryOk(t[k], names, |t|)
    {
      Qsort.RearrangedOrigin(u, t, 1, |u|, k);
    }
    forall m | m in names
      ensures HasName(t, m)
    {
      SortKeepsNames(u, t, m);
    }
  }

  /** Nothing has been counted yet, and which entries are made up is as expected. */
  ghost predicate Blank(t: seq<Entry>, nelem: nat)
  {
    forall k :: 1 <= k < |t| ==> t[k].skip == 0 && (k < nelem ==> !t[k].fake)
  }

  lemma BlankMore(t: seq<Entry>, e: Entry, nelem: nat, i: nat)
    requires Blank(t, nelem) && e.skip == 0 && 1 <= i < nelem <= |t|
    ensures Blank(t + [e], nelem) && !t[i].fake
  {
  }

  lemma AddingStarts(t: seq<Entry>, names: seq<string>)
    requires Populated(t, names) && |t| == |names| + 1 && Ascending(t, |t|)
    ensures Adding(t, |t|, 1, if 1 < |t| then FindRight(t[1].name) else 0)
  {
    forall k | 1 <= k < |t|
      ensures ValidName(t[k].name)
    {
      assert EntryOk(t[k], names, |t|);
    }
    if 1 < |t| {
      var n := t[1].name;
      forall p | p != [] && Below(n, p)
        ensures |p| <= FindRight(n)
      {
        assert n[|p|] == '/';
      }
    }
  }

  lemma AddingAscends(t: seq<Entry>, nelem: nat, i: nat, slash: int)
    requires Adding(t, nelem, i, slash)
    ensures Ascending(t, nelem)
  {
  }

  lemma OrderedPrefix(s: seq<Entry>, n: nat)
    requires 1 <= n <= |s| && Qsort.Ordered(s, 1, n, EntryCompare)
    ensures Qsort.Ordered(s[..n], 1, n, EntryCompare)
  {
  }

  lemma Sorted(u: seq<Entry>, t: seq<Entry>, names: seq<string>, nelem: nat)
    requires Populated(u, names) && Blank(u, nelem) && (nelem == 0 || nelem == |u|)
    requires Qsort.Rearranged(u, t, 1, |u|) && Qsort.Ordered(t, 1, |t|, EntryCompare)
    ensures Populated(t, names) && Ascending(t, |t|) && Blank(t, nelem)
    ensures Complete(u, names) ==> Complete(t, names)
  {
    SortKeepsPopulated(u, t, names);
    forall k | 1 <= k < |t|
      ensures ValidName(t[k].name) && t[k].skip == 0 && (k < nelem ==> !t[k].fake)
    {
      assert EntryOk(t[k], names, |t|);
      Qsort.RearrangedOrigin(u, t, 1, |u|, k);
    }
    SortAscends(t);
    if Complete(u, names) {
      SortKeepsComplete(u, t, names);
    }
  }

  lemma CompletePopulated(t: seq<Entry>, names: seq<string>)
    requires Complete(t, names)
    ensures Populated(t, names)
  {
  }

  lemma EmptyTable()
    ensures var t := [ROOT];
            Complete(t, []) && Ascending(t, 1) && Skips(t) && Inverse(t) && AllNames([]) == {}
  {
    assert SkipIs([ROOT], 0, 0);
  }

  lemma ElementCount(t: seq<Entry>, names: seq<string>)
    requires Populated(t, names) && |t| == |names| + 1
    ensures |names| <= |AllNames(names)|
  {
    forall k | 1 <= k < |t|
      ensures t[k].name in AllNames(names)
    {
      EntryIsNeeded(t[k], names, |t|);
    }
    DistinctCount(t, |t|);
    SubsetSize(NameSet(t, |t|), AllNames(names));
  }

  lemma SkipsFilled(t: seq<Entry>, u: seq<Entry>, names: seq<string>)
    requires Complete(t, names) && SameEntries(t, u)
    requires forall i :: 0 <= i < |t| ==> SkipStored(t, i, u[i].skip)
    requires u[0].skip == U16(|t| - 1)
    ensures |t| <= 0x1_0000 <==> Skips(u)
  {
    if |t| <= 0x1_0000 {
      hide Complete, Below;
      forall i | 0 <= i < |u|
        ensures SkipIs(u, i, u[i].skip)
      {
        assert SkipStored(t, i, u[i].skip);
        var s: nat :| SkipIs(t, i, s) && u[i].skip == U16(s);
        assert s == u[i].skip;
      }
    } else {
      var j := u[0].skip + 1;
      hide SkipStored, Numbered;
      assert EntryOk(t[j], names, |t|);
      assert Below(u[j].name, u[0].name);
      assert !SkipIs(u, 0, u[0].skip);
    }
  }

  /** Fill in the skip counts and the indices of a sorted table. */
  method Annotate(a: array<Entry>, n: nat, ghost names: seq<string>)
    requires 1 <= n <= a.Length && a[0] == ROOT
    requires Complete(a[..n], names) && Ascending(a[..n], n) && Blank(a[..n], 0)
    modifies a
    ensures Complete(a[..n], names) && Ascending(a[..n], n)
    ensures n <= 0x1_0000 <==> Inverse(a[..n])
    ensures n <= 0x1_0000 <==> Skips(a[..n])
  {
    hide Complete, Ascending, Inverse, Skips, SkipStored;
    ghost var t := a[..n];
    FillSkips(a, n, names);
    ghost var u := a[..n];
    SameEntriesComplete(t, u, names);
    FillIndices(a, n, names);
    SameEntriesComplete(u, a[..n], names);
    SkipsFilled(t, a[..n], names);
  }

  // ---------------------------------------------------------------- searching

  /** A table as Prepare leaves it. */
  ghost predicate Ready(t: seq<Entry>, names: seq<string>)
  {
    Complete(t, names) && Ascending(t, |t|) && Skips(t) && Inverse(t)
  }

  /** The entries from first to last all start with p. */
  ghost predicate SharePrefix(t: seq<Entry>, first: int, last: int, p: string)
  {
    0 <= first && last < |t| && forall k :: first <= k <= last ==> p <= t[k].name
  }

  /** Behind a shared prefix, the rests of the names are in order too. */
  lemma RestsAscend(t: seq<Entry>, first: int, last: int, p: string, j: int, k: int)
    requires Ascending(t, |t|) && SharePrefix(t, first, last, p)
    requires first <= j < k <= last
    ensures Compare(t[j].name[|p|..], t[k].name[|p|..]) < 0
  {
    CompareAfterPrefix(p, t[j].name[|p|..], t[k].name[|p|..]);
    assert t[j].name == p + t[j].name[|p|..] && t[k].name == p + t[k].name[|p|..];
  }

  /** One step of the binary search rules out one half. */
  lemma HalfRuledOut(t: seq<Entry>, first: int, last: int, p: string, n: string, mid: int, k: int)
    requires Ascending(t, |t|) && SharePrefix(t, first, last, p)
    requires first <= mid <= last && first <= k <= last
    requires (Compare(n, t[mid].name[|p|..]) < 0 && mid <= k)
             || (Compare(n, t[mid].name[|p|..]) > 0 && k <= mid)
    ensures t[k].name[|p|..] != n
  {
    var m, r := t[mid].name[|p|..], t[k].name[|p|..];
    CompareFlips(n, m);
    CompareFlips(n, r);
    CompareFlips(m, r);
    if mid < k {
      RestsAscend(t, first, last, p, mid, k);
    } else if k < mid {
      RestsAscend(t, first, last, p, k, mid);
    }
  }

  /** What every name in a directory starts with. */
  function Prefix(dir: string): (p: string)
  {
    if dir == [] then [] else dir + "/"
  }

  /** In a directory's range, having a given rest is having a given full name. */
  lemma RestIsJoin(n: string, dir: string, c: string)
    requires Below(n, dir)
    ensures Prefix(dir) <= n
    ensures n[|Prefix(dir)|..] == c <==> n == Join(dir, c)
  {
    if dir != [] {
      assert n == dir + "/" + n[|dir| + 1..];
    }
  }

  lemma ReadyEntry(t: seq<Entry>, names: seq<string>, k: nat)
    requires Ready(t, names) && k < |t|
    ensures k + t[k].skip < |t|
    ensures forall j :: k < j < |t| ==> (j <= k + t[k].skip <==> Below(t[j].name, t[k].name))
    ensures if k == 0 then t[k].name == [] else ValidName(t[k].name) && DirectoriesIn(t, t[k].name)
  {
    assert SkipIs(t, k, t[k].skip);
    assert k > 0 ==> EntryOk(t[k], names, |t|);
  }

  /** Names stand where their order puts them. */
  lemma ReadyOrder(t: seq<Entry>, names: seq<string>, j: nat, k: nat)
    requires Ready(t, names) && j < |t| && k < |t|
    ensures Below(t[k].name, t[j].name) ==> j < k
    ensures t[k].name == t[j].name ==> j == k
  {
    CompareFlips(t[j].name, t[k].name);
    if Below(t[k].name, t[j].name) {
      BelowComparesAbove(t[k].name, t[j].name);
    }
  }

  lemma DirectoryRange(t: seq<Entry>, names: seq<string>, d: nat)
    requires Ready(t, names) && d < |t|
    ensures d + t[d].skip < |t|
    ensures SharePrefix(t, d + 1, d + t[d].skip, Prefix(t[d].name))
  {
    hide Ready;
    ReadyEntry(t, names, d);
    forall k | d < k <= d + t[d].skip
      ensures Prefix(t[d].name) <= t[k].name
    {
      RestIsJoin(t[k].name, t[d].name, []);
    }
  }

  /** What a directory's range does not show is nowhere in the table. */
  lemma NotInRange(t: seq<Entry>, names: seq<string>, d: nat, c: string)
    requires Ready(t, names) && d < |t| && c != []
    requires forall k :: d < k <= d + t[d].skip && k < |t| ==> t[k].name != Join(t[d].name, c)
    ensures !HasName(t, Join(t[d].name, c))
  {
    hide Ready;
    var n := Join(t[d].name, c);
    assert Below(n, t[d].name);
    ReadyEntry(t, names, d);
    if HasName(t, n) {
      var k :| 1 <= k < |t| && t[k].name == n;
      ReadyOrder(t, names, d, k);
    }
  }

  /** Going down to a child and up again leads back. */
  lemma UpUndoesDown(t: seq<Entry>, names: seq<string>, d: nat, e: nat, up: nat, c: string)
    requires Ready(t, names) && d < |t| && e < |t| && up < |t|
    requires c != [] && '/' !in c && t[e].name == Join(t[d].name, c)
    requires t[up].name == Parent(t[e].name)
    ensures up == d
  {
    ParentJoin(t[d].name, c);
    ReadyOrder(t, names, d, up);
  }

  /** Going up and then down by the entry's own last component leads back. */
  lemma DownUndoesUp(t: seq<Entry>, names: seq<string>, e: nat, up: nat, down: nat)
    requires Ready(t, names) && 1 <= e < |t| && up < |t| && down < |t|
    requires t[up].name == Parent(t[e].name)
    requires t[down].name == Join(t[up].name, t[e].name[|Prefix(t[up].name)|..])
    ensures down == e && '/' !in t[e].name[|Prefix(t[up].name)|..]
  {
    ReadyEntry(t, names, e);
    JoinParent(t[e].name);
    RestIsJoin(t[e].name, t[up].name, t[e].name[|Prefix(t[up].name)|..]);
    ReadyOrder(t, names, down, e);
  }

  /** Two numbers of one entry are the same number. */
  lemma SameNumber(t: seq<Entry>, names: seq<string>, k: nat, k': nat)
    requires Ready(t, names) && k < |t| && k' < |t| && t[k].xindex == t[k'].xindex
    ensures k == k'
  {
    hide Complete, Ascending, Skips;
    assert t[t[k].xindex].elementnoPlus1 == k && t[t[k'].xindex].elementnoPlus1 == k';
  }

  /** The last component of a name is one to look up. */
  lemma LastComponent(t: seq<Entry>, names: seq<string>, e: nat, up: nat)
    requires Ready(t, names) && e < |t| && up < |t| && t[e].name != [] && t[up].name == Parent(t[e].name)
    ensures var n := |Prefix(t[up].name)|;
            && e > 0 && n == (if t[up].name == [] then 0 else |t[up].name| + 1) < |t[e].name|
            && t[e].name[n] != '.' && Join(t[up].name, t[e].name[n..]) == t[e].name
            && HasName(t, t[e].name)
  {
    hide Ready;
    ReadyEntry(t, names, e);
    JoinParent(t[e].name);
    var n := |Prefix(t[up].name)|;
    RestIsJoin(t[e].name, t[up].name, t[e].name[n..]);
    if t[e].name[n] == '.' {
      NoDotNames(t, names, t[up].name, t[e].name[n..]);
    }
  }

  lemma JoinIsNamed(dir: string, c: string)
    requires c != []
    ensures Join(dir, c) != []
  {
  }

  // ---------------------------------------------------------------- stepping over children

  /** The entries standing directly in directory d. */
  ghost function Children(t: seq<Entry>, d: nat, upto: nat): set<nat>
    requires d < |t| && upto <= |t|
  {
    set k: nat | d < k < upto && t[k].name != [] && Parent(t[k].name) == t[d].name
  }

  /** Nothing at or past cur lies below an entry between d and cur. */
  ghost predicate ClosedBefore(t: seq<Entry>, d: nat, cur: nat)
  {
    forall q, m :: d < q < cur <= m < |t| ==> !Below(t[m].name, t[q].name)
  }

  lemma NextIsChild(t: seq<Entry>, names: seq<string>, d: nat, cur: nat)
    requires Ready(t, names) && d < |t| && d < cur <= d + t[d].skip
    requires ClosedBefore(t, d, cur)
    ensures cur < |t| && t[cur].name != [] && Parent(t[cur].name) == t[d].name
  {
    hide Ready;
    ReadyEntry(t, names, d);
    ReadyEntry(t, names, cur);
    var p := Parent(t[cur].name);
    ParentIsLowest(t[cur].name, t[d].name);
    if p != t[d].name {
      assert HasName(t, p);
      var q :| 1 <= q < |t| && t[q].name == p;
      ReadyOrder(t, names, d, q);
      ReadyOrder(t, names, q, cur);
    }
  }

  lemma ClosedBehind(t: seq<Entry>, names: seq<string>, d: nat, cur: nat)
    requires Ready(t, names) && d < cur < |t| && ClosedBefore(t, d, cur)
    ensures var next := cur + t[cur].skip + 1; next <= |t| && ClosedBefore(t, d, next)
  {
    hide Ready, Below;
    var next := cur + t[cur].skip + 1;
    ReadyEntry(t, names, cur);
    forall q, m | d < q < next <= m < |t|
      ensures !Below(t[m].name, t[q].name)
    {
      if cur < q && Below(t[m].name, t[q].name) {
        BelowTransitive(t[m].name, t[q].name, t[cur].name);
      }
    }
  }

  lemma SkippedIsNotChild(t: seq<Entry>, names: seq<string>, d: nat, cur: nat, k: nat)
    requires Ready(t, names) && d < cur < k < |t| && k <= cur + t[cur].skip
    requires t[cur].name != [] && Parent(t[cur].name) == t[d].name
    ensures t[k].name != [] && Parent(t[k].name) != t[d].name
  {
    hide Ready;
    ReadyEntry(t, names, cur);
    ReadyEntry(t, names, k);
    ParentIsLowest(t[k].name, t[cur].name);
  }

  lemma SkippedAreNotChildren(t: seq<Entry>, names: seq<string>, d: nat, cur: nat)
    requires Ready(t, names) && d < cur < |t|
    requires t[cur].name != [] && Parent(t[cur].name) == t[d].name
    requires ClosedBefore(t, d, cur)
    ensures var next := cur + t[cur].skip + 1;
            next <= |t| && ClosedBefore(t, d, next)
            && |Children(t, d, next)| == |Children(t, d, cur)| + 1
  {
    hide Ready, ClosedBefore, Parent;
    var next := cur + t[cur].skip + 1;
    ClosedBehind(t, names, d, cur);
    forall k | cur < k < next
      ensures t[k].name != [] && Parent(t[k].name) != t[d].name
    {
      SkippedIsNotChild(t, names, d, cur, k);
    }
    assert Children(t, d, next) == Children(t, d, cur) + {cur};
  }

  lemma NoChildrenYet(t: seq<Entry>, d: nat)
    requires d < |t|
    ensures ClosedBefore(t, d, d + 1) && |Children(t, d, d + 1)| == 0
  {
  }

  lemma ChildrenInRange(t: seq<Entry>, names: seq<string>, d: nat, cur: nat)
    requires Ready(t, names) && d < |t| && d + t[d].skip < cur <= |t|
    ensures Children(t, d, cur) == Children(t, d, |t|)
  {
    hide Ready;
    ReadyEntry(t, names, d);
    forall k | cur <= k < |t| && t[k].name != []
      ensures Parent(t[k].name) != t[d].name
    {
      ReadyEntry(t, names, k);
    }
  }

  lemma ReadyNumbers(t: seq<Entry>, names: seq<string>, k: nat)
    requires Ready(t, names) && k < |t|
    ensures t[k].xindex < |t| && t[k].elementnoPlus1 < |t|
    ensures t[t[k].elementnoPlus1].xindex == k
    ensures k == 0 ==> t[0].xindex == 0
  {
    assert t[t[0].elementnoPlus1].xindex == 0;
  }

  lemma RootIsUnnamed(t: seq<Entry>, names: seq<string>)
    requires Ready(t, names)
    ensures |t| > 0 && t[0].name == []
  {
  }

  lemma ParentIs(n: string, slash: int)
    requires slash == FindRight(n)
    ensures n == [] ==> slash < 0
    ensures n != [] ==> Parent(n) == if slash < 0 then [] else n[..slash]
  {
  }

  /** The search for a directory that has a name finds it. */
  lemma ParentIsFound(t: seq<Entry>, names: seq<string>, xi: nat, slash: nat, found: int)
    requires Ready(t, names) && xi < |t| && slash == FindRight(t[xi].name)
    requires found >= 0 ==> 1 <= found < |t| && t[found].name[0..] == t[xi].name[..slash]
    requires found < 0 ==> forall k :: 1 <= k < |t| ==> t[k].name[0..] != t[xi].name[..slash]
    ensures 1 <= found < |t| && t[found].name == t[xi].name[..slash]
  {
    hide Ready, ValidName;
    var n := t[xi].name;
    ReadyEntry(t, names, xi);
    ReadyEntry(t, names, 0);
    assert n != [] && Parent(n) == n[..slash];
    SlashInside(n, slash);
    assert HasName(t, n[..slash]);
    var k :| 1 <= k < |t| && t[k].name == n[..slash];
    assert t[k].name[0..] == n[..slash];
    assert found >= 0 ==> t[found].name[0..] == t[found].name;
  }

  lemma SlashInside(n: string, slash: nat)
    requires ValidName(n) && slash == FindRight(n)
    ensures n[..slash] != [] && Below(n, n[..slash])
  {
    assert Below(n, Parent(n));
  }

  lemma ReadyAscending(t: seq<Entry>, names: seq<string>)
    requires Ready(t, names)
    ensures Ascending(t, |t|)
  {
  }

  lemma EmptyIsNoName(n: string, dir: string, c: string)
    requires ValidName(n) && n == Join(dir, c)
    ensures c != []
  {
    assert dir != [] ==> Join(dir, [])[|dir|] == '/';
  }

  lemma NoDotNames(t: seq<Entry>, names: seq<string>, dir: string, c: string)
    requires Ready(t, names) && c != [] && c[0] == '.'
    ensures !HasName(t, Join(dir, c))
  {
    hide Ready;
    var n := Join(dir, c);
    assert n[|n| - |c|] == '.' && !LetterOrSlash('.');
    forall k | 1 <= k < |t|
      ensures t[k].name != n
    {
      ReadyEntry(t, names, k);
    }
  }

  /** What a name in a directory leads to. */
  datatype Node = NamesDir(elementno: int) | NumbersDir | HandlersDir(elementno: int) | HandlerOf(elementno: int)

  class ClickIno {
    var x: array<Entry>
    var nentries: nat

    constructor ()
      ensures fresh(x) && nentries == 0
    {
      x := new Entry[0];
      nentries := 0;
    }

    /** Make room for minSize entries, keeping those there are. */
    method Grow(minSize: nat)
      modifies this`x
      ensures x.Length >= minSize && x.Length >= old(x.Length)
      ensures x[..old(x.Length)] == old(x[..])
      ensures x == old(x) || fresh(x)
    {
      if x.Length >= minSize {
        return;
      }
      var cap := if x.Length != 0 then x.Length else 128;
      while cap < minSize
        invariant cap > 0 && cap >= x.Length
      {
        cap := cap * 2;
      }
      var y := new Entry[cap](_ => ROOT);
      forall i | 0 <= i < x.Length {
        y[i] := x[i];
      }
      x := y;
    }

    /** Enter the elements in the order the router has them. */
    method FillElements(names: seq<string>)
      requires x.Length > |names| && x[0] == ROOT
      modifies x
      ensures x[0] == ROOT && Listed(x[..|names| + 1], names) && Blank(x[..|names| + 1], |names| + 1)
    {
      var i := 1;
      while i < |names| + 1
        invariant 1 <= i <= |names| + 1
        invariant x[0] == ROOT
        invariant forall k :: 1 <= k < i ==> x[k].name == names[k - 1] && x[k].elementnoPlus1 == U16(k)
                                             && x[k].skip == 0 && !x[k].fake
      {
        x[i] := x[i].(name := names[i - 1], elementnoPlus1 := U16(i), skip := 0, fake := false);
        i := i + 1;
      }
    }

    /** The inner loop: add the directories above element i that its predecessor does not share,
        innermost first. */
    method AddMissing(names: seq<string>, i: nat, n0: nat) returns (n: nat)
      requires 1 <= i <= |names| < n0 <= x.Length
      requires Populated(x[..n0], names) && Blank(x[..n0], |names| + 1)
      requires Adding(x[..n0], |names| + 1, i, FindRight(x[i].name))
      modifies this`x, x
      ensures x == old(x) || fresh(x)
      ensures n0 <= n <= x.Length && x[..n0] == old(x[..n0])
      ensures Populated(x[..n], names) && Blank(x[..n], |names| + 1)
      ensures Adding(x[..n], |names| + 1, i + 1,
                     if i < |names| then FindRight(x[i + 1].name) else 0)
    {
      hide Populated, Adding, Below, ValidName, Blank, FindRight;
      ghost var t0, t := x[..n0], x[..n0];
      n := n0;
      var name, last := x[i].name, x[i - 1].name;
      var slash := FindRight(name);
      while slash >= 0 && !(name[..slash] <= last)
        invariant n0 <= n <= x.Length
        invariant x == old(x) || fresh(x)
        invariant t == x[..n] && t0 <= t
        invariant -1 <= slash < |name| && (slash >= 0 ==> name[slash] == '/')
        invariant Populated(t, names) && Blank(t, |names| + 1)
        invariant Adding(t, |names| + 1, i, slash)
        decreases slash
      {
        Grow(n + 1);
        assert t == x[..n];
        var e := x[n].(name := name[..slash], elementnoPlus1 := U16(n), skip := 0, fake := true);
        BlankMore(t, e, |names| + 1, i);
        AddDirectory(t, names, i, slash, e);
        x[n] := e;
        t := t + [e];
        slash := FindRight(name[..slash]);
        n := n + 1;
      }
      DirectoriesKnown(t, |names| + 1, i, slash);
      AddingNext(t, |names| + 1, i, slash);
    }

    /** Add an entry for every directory that no element names. */
    method AddDirectories(names: seq<string>) returns (n: nat)
      requires |names| < x.Length
      requires Populated(x[..|names| + 1], names) && Ascending(x[..|names| + 1], |names| + 1)
      requires Blank(x[..|names| + 1], |names| + 1)
      modifies this`x, x
      ensures x == old(x) || fresh(x)
      ensures |names| < n <= x.Length
      ensures x[..|names| + 1] == old(x[..|names| + 1])
      ensures Complete(x[..n], names) && Blank(x[..n], 0)
      ensures Ascending(x[..n], |names| + 1)
    {
      hide Populated, Adding, Complete, Ascending, Below, ValidName;
      var nelem := |names| + 1;
      n := nelem;
      ghost var t0 := x[..nelem];
      AddingStarts(t0, names);
      var i := 1;
      while i < nelem
        invariant 1 <= i <= nelem <= n <= x.Length
        invariant x == old(x) || fresh(x)
        invariant x[..nelem] == t0
        invariant Populated(x[..n], names) && Blank(x[..n], nelem)
        invariant Adding(x[..n], nelem, i, if i < nelem then FindRight(x[i].name) else 0)
      {
        n := AddMissing(names, i, n);
        assert x[..nelem] == x[..n][..nelem];
        i := i + 1;
      }
      AddingDone(x[..n], names);
      AddingAscends(x[..n], nelem, i, 0);
    }

    /** Sort the entries behind the root by name. */
    method SortEntries(n: nat, names: seq<string>, ghost nelem: nat)
      requires 1 <= n <= x.Length && n - 1 < Qsort.MAX_SIZE_T
      requires Populated(x[..n], names) && Blank(x[..n], nelem) && (nelem == 0 || nelem == n)
      modifies x
      ensures x[0] == old(x[0])
      ensures Populated(x[..n], names) && Ascending(x[..n], n) && Blank(x[..n], nelem)
      ensures old(Complete(x[..n], names)) ==> Complete(x[..n], names)
    {
      hide Populated, Complete, Ascending, Qsort.Rearranged, Qsort.Ordered;
      ghost var s := x[..];
      ghost var u := x[..n];
      EntryCompareIsPreorder();
      Qsort.Sort(x, 1, n - 1, EntryCompare);
      assert u == s[..n];
      Qsort.RearrangedPrefix(s, x[..], 1, n);
      assert x[..n] == x[..][..n];
      OrderedPrefix(x[..], n);
      Sorted(u, x[..n], names, nelem);
    }

    /** Fill the table with the elements and the directories they need, in order. */
    method Arrange(names: seq<string>) returns (n: nat)
      requires RouterNames(names) && |names| < x.Length && x[0] == ROOT
      modifies this`x, x
      ensures x == old(x) || fresh(x)
      ensures 1 <= n <= x.Length && x[0] == ROOT && n == 1 + |AllNames(names)|
      ensures Complete(x[..n], names) && Ascending(x[..n], n) && Blank(x[..n], 0)
    {
      hide Populated, Complete, Ascending, AllNames, Blank, Listed;
      var nelem := |names| + 1;
      FillElements(names);
      ListedPopulated(x[..nelem], names);
      ElementCount(x[..nelem], names);
      SortEntries(nelem, names, nelem);
      n := AddDirectories(names);
      EntryCount(x[..n], names);
      CompletePopulated(x[..n], names);
      if n != nelem {
        SortEntries(n, names, 0);
      }
    }

    /** true_prepare: rebuild the table for a router with these element names. The table then holds
        exactly the elements and the directories they need, in order; and as long as sixteen bits
        can count the entries, the counts and indices are right. */
    method Prepare(names: seq<string>)
      requires RouterNames(names)
      modifies this, x
      ensures 1 <= nentries <= x.Length
      ensures Complete(x[..nentries], names) && Ascending(x[..nentries], nentries)
      ensures nentries == 1 + |AllNames(names)|
      ensures nentries <= 0x1_0000 <==> Inverse(x[..nentries])
      ensures nentries <= 0x1_0000 <==> Skips(x[..nentries])
    {
      hide Populated, Complete, Ascending, Inverse, Skips, SkipStored, AllNames;
      if |names| + 1 < nentries / 2 && nentries > 256 {
        x := new Entry[0];
      }
      Grow(|names| + 1);
      x[0] := ROOT;
      nentries := 1;
      if names == [] {
        assert x[..1] == [ROOT];
        EmptyTable();
        return;
      }
      var n := Arrange(names);
      Annotate(x, n, names);
      nentries := n;
    }

    /** Binary search among entries that share the prefix p. */
    method NameSearch(n: string, first: int, last: int, off: nat, ghost p: string) returns (r: int)
      requires nentries <= x.Length && off == |p|
      requires Ascending(x[..nentries], nentries) && SharePrefix(x[..nentries], first, last, p)
      ensures r >= 0 ==> first <= r <= last && x[..nentries][r].name[off..] == n
      ensures r < 0 ==> forall k :: first <= k <= last ==> x[..nentries][k].name[off..] != n
    {
      hide Ascending;
      ghost var t := x[..nentries];
      var lo, hi := first, last;
      while lo <= hi
        invariant first <= lo && hi <= last
        invariant forall k :: first <= k < lo && k <= last ==> t[k].name[off..] != n
        invariant forall k :: hi < k <= last && first <= k ==> t[k].name[off..] != n
      {
        var mid := lo + (hi - lo) / 2;
        assert x[mid] == t[mid];
        var rest := x[mid].name[off..];
        var cmp := Compare(n, rest);
        CompareFlips(n, rest);
        if cmp == 0 {
          return mid;
        }
        forall k | first <= k <= last && (if cmp < 0 then mid <= k else k <= mid)
          ensures t[k].name[off..] != n
        {
          HalfRuledOut(t, first, last, p, n, mid, k);
        }
        if cmp < 0 {
          hi := mid - 1;
        } else {
          lo := mid + 1;
        }
      }
      r := -1;
    }

    /** xindex(): where the entry of an element number stands; -1 is the root. */
    function XIndex(elementno: int): (xi: nat)
      requires -1 <= elementno < nentries - 1 && nentries <= x.Length
      reads this, x
    {
      x[elementno + 1].xindex
    }

    /** The name of a directory given by element number. */
    ghost function DirName(elementno: int): string
      requires -1 <= elementno < nentries - 1 && nentries <= x.Length
      requires XIndex(elementno) < nentries
      reads this, x
    {
      x[XIndex(elementno)].name
    }

    /** Search a directory for the entry called c, at any depth: it finds one exactly when the
        whole table has one of that full name. */
    method ElementNameSearch(c: string, elementno: int, ghost names: seq<string>) returns (r: int)
      requires nentries <= x.Length && Ready(x[..nentries], names)
      requires -1 <= elementno < nentries - 1
      ensures XIndex(elementno) < nentries
      ensures r >= 0 <==> c != [] && HasName(x[..nentries], Join(DirName(elementno), c))
      ensures r >= 0 ==> 1 <= r < nentries && x[r].name == Join(DirName(elementno), c)
    {
      hide Ready;
      ghost var t := x[..nentries];
      ReadyNumbers(t, names, elementno + 1);
      var xi := XIndex(elementno);
      DirectoryRange(t, names, xi);
      ReadyAscending(t, names);
      ReadyEntry(t, names, xi);
      ghost var dir := t[xi].name;
      var off := if x[xi].name != [] then |x[xi].name| + 1 else 0;
      r := NameSearch(c, xi + 1, xi + x[xi].skip, off, Prefix(dir));
      forall k | xi < k <= xi + t[xi].skip
        ensures t[k].name[off..] == c <==> t[k].name == Join(dir, c)
      {
        RestIsJoin(t[k].name, dir, c);
      }
      if r < 0 && c != [] {
        forall k | xi < k <= xi + t[xi].skip && k < |t|
          ensures t[k].name != Join(dir, c)
        {
          assert x[..nentries][k].name[off..] != c;
        }
        NotInRange(t, names, xi, c);
      }
      if r >= 0 {
        ReadyEntry(t, names, r);
        EmptyIsNoName(t[r].name, dir, c);
      }
    }

    /** lookup() in a directory of names; visibleHandler says whether the element has a visible
        handler called component. */
    method Lookup(elementno: int, component: string, visibleHandler: bool, names: seq<string>)
      returns (r: Option<Node>)
      requires nentries <= x.Length && Ready(x[..nentries], names)
      requires -1 <= elementno < nentries - 1
      ensures XIndex(elementno) < nentries
      ensures component == [] ==> r == None
      ensures component == "." ==> r == Some(NamesDir(elementno))
      ensures component == ".." ==>
                && r.Some? && r.value.NamesDir? && -1 <= r.value.elementno < nentries - 1
                && XIndex(r.value.elementno) < nentries
                && DirName(r.value.elementno)
                   == if DirName(elementno) == [] then [] else Parent(DirName(elementno))
      ensures component != [] && component != "." && component != ".." ==>
                && (r.Some? && r.value.NamesDir?
                    <==> HasName(x[..nentries], Join(DirName(elementno), component)))
                && (r.Some? && r.value.NamesDir? ==>
                      && -1 <= r.value.elementno < nentries - 1
                      && XIndex(r.value.elementno) < nentries
                      && DirName(r.value.elementno) == Join(DirName(elementno), component))
      ensures component != [] && component != "." && component != ".."
              && !HasName(x[..nentries], Join(DirName(elementno), component)) ==>
                r == if elementno == -1 && component == ".e" then Some(NumbersDir)
                     else if component == ".h" && !x[XIndex(elementno)].fake then Some(HandlersDir(elementno))
                     else if elementno < |names| && component[0] != '.' && visibleHandler then Some(HandlerOf(elementno))
                     else None
    {
      hide Ready, HasName, Join, Parent;
      ghost var t := x[..nentries];
      ReadyNumbers(t, names, elementno + 1);
      if component == [] {
        return None;
      }
      if component == "." {
        return Some(NamesDir(elementno));
      }
      var xi := XIndex(elementno);
      ghost var dir := t[xi].name;
      if component[0] == '.' {
        NoDotNames(t, names, dir, component);
      }
      if elementno == -1 && component == ".e" {
        return Some(NumbersDir);
      }
      if component == ".h" && !x[xi].fake {
        return Some(HandlersDir(elementno));
      }
      var found := ElementNameSearch(component, elementno, names);
      if found >= 0 {
        ReadyNumbers(t, names, found);
        return Some(NamesDir(x[found].elementnoPlus1 - 1));
      }
      if elementno < |names| && component[0] != '.' && visibleHandler {
        return Some(HandlerOf(elementno));
      }
      if component == ".." {
        var up := LookupParent(elementno, names);
        return Some(NamesDir(up));
      }
      r := None;
    }

    /** The ".." step: the directory an entry stands in; the root stands in itself. */
    method LookupParent(elementno: int, ghost names: seq<string>) returns (r: int)
      requires nentries <= x.Length && Ready(x[..nentries], names)
      requires -1 <= elementno < nentries - 1
      ensures XIndex(elementno) < nentries
      ensures -1 <= r < nentries - 1 && XIndex(r) < nentries
      ensures DirName(r) == if DirName(elementno) == [] then [] else Parent(DirName(elementno))
    {
      hide Ready, FindRight, Parent, ValidName, Ascending;
      ghost var t := x[..nentries];
      ReadyNumbers(t, names, elementno + 1);
      ReadyNumbers(t, names, 0);
      var xi := XIndex(elementno);
      RootIsUnnamed(t, names);
      var slash := FindRight(x[xi].name);
      ParentIs(t[xi].name, slash);
      if slash < 0 {
        return -1;
      }
      ReadyAscending(t, names);
      var found := NameSearch(x[xi].name[..slash], 1, nentries - 1, 0, []);
      if found < 0 {
        forall k | 1 <= k < |t|
          ensures t[k].name[0..] != t[xi].name[..slash]
        {
          assert x[..nentries][k].name[0..] != x[xi].name[..slash];
        }
      }
      ParentIsFound(t, names, xi, slash, found);
      ReadyNumbers(t, names, found);
      r := x[found].elementnoPlus1 - 1;
    }

    /** Going down to a component and up again by "..": back where it started. */
    method LookupDownAndUp(elementno: int, component: string, visibleHandler: bool, names: seq<string>)
      returns (down: Option<Node>, up: Option<Node>)
      requires nentries <= x.Length && Ready(x[..nentries], names)
      requires -1 <= elementno < nentries - 1
      requires component !in [".", ".."] && '/' !in component
      ensures XIndex(elementno) < nentries
      ensures down.Some? && down.value.NamesDir?
              <==> component != [] && HasName(x[..nentries], Join(DirName(elementno), component))
      ensures down.Some? && down.value.NamesDir? ==> up == Some(NamesDir(elementno))
    {
      hide Ready, HasName, Join, Parent;
      ghost var t := x[..nentries];
      up := None;
      down := Lookup(elementno, component, visibleHandler, names);
      if down.Some? && down.value.NamesDir? {
        up := Lookup(down.value.elementno, "..", visibleHandler, names);
        ghost var d, e, back := XIndex(elementno), XIndex(down.value.elementno), XIndex(up.value.elementno);
        JoinIsNamed(t[d].name, component);
        UpUndoesDown(t, names, d, e, back, component);
        SameNumber(t, names, elementno + 1, up.value.elementno + 1);
      }
    }

    /** Going up by ".." and down by the last component of the name: back where it started. */
    method LookupUpAndDown(elementno: int, visibleHandler: bool, names: seq<string>)
      returns (up: Option<Node>, down: Option<Node>)
      requires nentries <= x.Length && Ready(x[..nentries], names)
      requires -1 <= elementno < nentries - 1
      ensures XIndex(elementno) < nentries
      ensures DirName(elementno) != [] ==> down == Some(NamesDir(elementno))
    {
      hide Ready, HasName, Join, Parent;
      ghost var t := x[..nentries];
      down := None;
      up := Lookup(elementno, "..", visibleHandler, names);
      var xi := XIndex(elementno);
      if x[xi].name != [] {
        var xup := XIndex(up.value.elementno);
        assert t[xup].name == Parent(t[xi].name);
        var last := x[xi].name[if x[xup].name == [] then 0 else |x[xup].name| + 1..];
        LastComponent(t, names, xi, xup);
        down := Lookup(up.value.elementno, last, visibleHandler, names);
        DownUndoesUp(t, names, xi, xup, XIndex(down.value.elementno));
        SameNumber(t, names, elementno + 1, down.value.elementno + 1);
      }
    }

    /** nlink() of a directory of names: two, one for each entry standing directly in it, one for
        ".h" unless it is made up, and one for ".e" at the root. */
    method Nlink(elementno: int, ghost names: seq<string>) returns (r: nat)
      requires nentries <= x.Length && Ready(x[..nentries], names)
      requires -1 <= elementno < nentries - 1
      ensures XIndex(elementno) < nentries
      ensures r == 2 + (if x[XIndex(elementno)].fake then 0 else 1)
                   + |Children(x[..nentries], XIndex(elementno), nentries)|
                   + (if elementno == -1 then 1 else 0)
    {
      hide Ready, ClosedBefore, Children, Below;
      ghost var t := x[..nentries];
      ReadyNumbers(t, names, elementno + 1);
      ghost var d := XIndex(elementno);
      ReadyEntry(t, names, d);
      NoChildrenYet(t, d);
      r := 2;
      var xi := XIndex(elementno) + 1;
      var next := XIndex(elementno) + x[XIndex(elementno)].skip + 1;
      if !x[xi - 1].fake {
        r := r + 1;
      }
      ghost var r0 := r;
      while xi < next
        invariant d < xi <= |t| && ClosedBefore(t, d, xi)
        invariant r == r0 + |Children(t, d, xi)|
      {
        NextIsChild(t, names, d, xi);
        SkippedAreNotChildren(t, names, d, xi);
        r := r + 1;
        xi := xi + x[xi].skip + 1;
      }
      ChildrenInRange(t, names, d, xi);
      if elementno == -1 {
        r := r + 1;
      }
    }
  }
}
