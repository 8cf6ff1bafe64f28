/** The in-place sort of click/lib/glue.cc: Bentley-McIlroy three-way quicksort with an
    explicit stack of ranges and an insertion sort for tiny ranges.

    Every method works on the half-open range [lo, hi) of an array and promises two things:
    it only rearranges that range, whatever the comparator does; and when the comparator is a
    total preorder, it orders the range. */
module Qsort {

  /** A three-way comparator, as C's qsort takes it: only the sign of the result matters. */
  type Comparator<!T> = (T, T) -> int

  /** The comparators a sort can be meaningful for: swapping the operands flips the sign, and
      "not above" is transitive. */
  ghost predicate TotalPreorder<T(!new)>(cmp: Comparator<T>)
  {
    && (forall x, y :: cmp(x, y) < 0 <==> cmp(y, x) > 0)
    && (forall x, y, z :: cmp(x, y) <= 0 && cmp(y, z) <= 0 ==> cmp(x, z) <= 0)
  }

  /** s[lo..hi) is in order, every pair of positions compared. */
  ghost predicate Ordered<T>(s: seq<T>, lo: nat, hi: nat, cmp: Comparator<T>)
    requires lo <= hi <= |s|
  {
    forall i, j :: lo <= i < j < hi ==> cmp(s[i], s[j]) <= 0
  }

  /** t is s with the elements of [lo, hi) moved around among themselves. */
  ghost predicate Rearranged<T>(s: seq<T>, t: seq<T>, lo: nat, hi: nat)
  {
    && lo <= hi <= |s| == |t|
    && (forall i :: 0 <= i < lo ==> t[i] == s[i])
    && (forall i :: hi <= i < |s| ==> t[i] == s[i])
    && multiset(s) == multiset(t)
  }

  lemma CountSplit<T>(s: seq<T>, lo: nat, hi: nat, e: T)
    requires lo <= hi <= |s|
    ensures multiset(s)[e] == multiset(s[..lo])[e] + multiset(s[lo..hi])[e] + multiset(s[hi..])[e]
  {
    assert s == s[..lo] + s[lo..hi] + s[hi..];
  }

  /** Each element of the rearranged range was somewhere in that range before. */
  lemma RearrangedOrigin<T>(s: seq<T>, t: seq<T>, lo: nat, hi: nat, j: nat)
    requires Rearranged(s, t, lo, hi)
    requires lo <= j < hi
    ensures exists k :: lo <= k < hi && s[k] == t[j]
  {
    var e := t[j];
    CountSplit(s, lo, hi, e);
    CountSplit(t, lo, hi, e);
    assert s[..lo] == t[..lo] && s[hi..] == t[hi..];
    assert multiset(s[lo..hi])[e] == multiset(t[lo..hi])[e];
    assert t[lo..hi][j - lo] == e;
    assert e in s[lo..hi];
  }

  function Swapped<T>(s: seq<T>, i: nat, j: nat): (t: seq<T>)
    requires i < |s| && j < |s|
  {
    s[i := s[j]][j := s[i]]
  }

  /** Nothing past the range is involved. */
  lemma MultisetOfFront<T>(s: seq<T>, hi: nat)
    requires hi <= |s|
    ensures multiset(s[..hi]) == multiset(s) - multiset(s[hi..])
  {
    assert s == s[..hi] + s[hi..];
  }

  lemma RearrangedPrefix<T>(s: seq<T>, t: seq<T>, lo: nat, hi: nat)
    requires Rearranged(s, t, lo, hi)
    ensures Rearranged(s[..hi], t[..hi], lo, hi)
  {
    MultisetOfFront(s, hi);
    MultisetOfFront(t, hi);
    assert s[hi..] == t[hi..];
  }

  lemma RearrangedNot<T>(s: seq<T>, lo: nat, hi: nat)
    requires lo <= hi <= |s|
    ensures Rearranged(s, s, lo, hi)
  {
  }

  lemma SwapRearranges<T>(s: seq<T>, t: seq<T>, i: nat, j: nat, lo: nat, hi: nat)
    requires Rearranged(s, t, lo, hi)
    requires lo <= i < hi && lo <= j < hi
    ensures Rearranged(s, Swapped(t, i, j), lo, hi)
  {
  }

  /** Exchange two elements. */
  method Swap<T>(a: array<T>, i: nat, j: nat)
    requires i < a.Length && j < a.Length
    modifies a
    ensures a[..] == Swapped(old(a[..]), i, j)
  {
    a[i], a[j] := a[j], a[i];
  }

  // ---------------------------------------------------------------- tiny ranges

  /** [lo, hi] is in order once position hole is left out, and the element at hole is not above
      anything to its right. */
  ghost predicate OrderedButFor<T>(s: seq<T>, lo: nat, hole: nat, hi: nat, cmp: Comparator<T>)
    requires lo <= hole <= hi < |s|
  {
    && (forall i, j :: lo <= i < j <= hi && i != hole && j != hole ==> cmp(s[i], s[j]) <= 0)
    && (forall j :: hole < j <= hi ==> cmp(s[hole], s[j]) <= 0)
  }

  lemma HoleMovesLeft<T(!new)>(s: seq<T>, lo: nat, hole: nat, hi: nat, cmp: Comparator<T>)
    requires lo < hole <= hi < |s|
    requires TotalPreorder(cmp)
    requires OrderedButFor(s, lo, hole, hi, cmp)
    requires cmp(s[hole - 1], s[hole]) > 0
    ensures OrderedButFor(Swapped(s, hole, hole - 1), lo, hole - 1, hi, cmp)
  {
  }

  lemma HoleCloses<T(!new)>(s: seq<T>, lo: nat, hole: nat, hi: nat, cmp: Comparator<T>)
    requires lo <= hole <= hi < |s|
    requires TotalPreorder(cmp)
    requires OrderedButFor(s, lo, hole, hi, cmp)
    requires hole == lo || cmp(s[hole - 1], s[hole]) <= 0
    ensures Ordered(s, lo, hi + 1, cmp)
  {
    forall i | lo <= i < hole
      ensures cmp(s[i], s[hole]) <= 0
    {
      if i < hole - 1 {
        assert cmp(s[i], s[hole - 1]) <= 0;
      }
    }
  }

  /** Move the element at hi left to its place in the ordered range [lo, hi). */
  method Insert<T(!new)>(a: array<T>, lo: nat, hi: nat, cmp: Comparator<T>)
    requires lo <= hi < a.Length
    requires TotalPreorder(cmp) ==> Ordered(a[..], lo, hi, cmp)
    modifies a
    ensures Rearranged(old(a[..]), a[..], lo, hi + 1)
    ensures TotalPreorder(cmp) ==> Ordered(a[..], lo, hi + 1, cmp)
  {
    ghost var meaningful := TotalPreorder(cmp);
    ghost var before, s := a[..], a[..];
    var pj := hi;
    while pj > lo && cmp(a[pj - 1], a[pj]) > 0
      invariant lo <= pj <= hi
      invariant s == a[..]
      invariant Rearranged(before, s, lo, hi + 1)
      invariant meaningful ==> OrderedButFor(s, lo, pj, hi, cmp)
    {
      if meaningful {
        HoleMovesLeft(s, lo, pj, hi, cmp);
      }
      SwapRearranges(before, s, pj, pj - 1, lo, hi + 1);
      Swap(a, pj, pj - 1);
      s := Swapped(s, pj, pj - 1);
      pj := pj - 1;
    }
    if meaningful {
      HoleCloses(s, lo, pj, hi, cmp);
    }
  }

  /** Insertion sort of a range. */
  method InsertionSort<T(!new)>(a: array<T>, lo: nat, hi: nat, cmp: Comparator<T>)
    requires lo <= hi <= a.Length
    modifies a
    ensures Rearranged(old(a[..]), a[..], lo, hi)
    ensures TotalPreorder(cmp) ==> Ordered(a[..], lo, hi, cmp)
  {
    ghost var before := a[..];
    var pi := lo + 1;
    while pi < hi
      invariant lo < pi && (pi <= hi || hi == lo)
      invariant Rearranged(before, a[..], lo, hi)
      invariant TotalPreorder(cmp) && pi <= hi ==> Ordered(a[..], lo, pi, cmp)
    {
      Insert(a, lo, pi, cmp);
      pi := pi + 1;
    }
  }

  // ---------------------------------------------------------------- pivot

  /** The position, among three, of the element cq_med3 picks. For a total preorder it is a
      median: one of the other two is not above it and the remaining one not below it. */
  function Med3<T(!new)>(s: seq<T>, a: nat, b: nat, c: nat, cmp: Comparator<T>): (m: nat)
    requires a < |s| && b < |s| && c < |s|
    ensures m == a || m == b || m == c
    ensures TotalPreorder(cmp) ==>
              exists below: nat, above: nat :: {below, m, above} == {a, b, c}
                                     && cmp(s[below], s[m]) <= 0 && cmp(s[m], s[above]) <= 0
  {
    var ab := cmp(s[a], s[b]);
    var bc := cmp(s[b], s[c]);
    assert {a, b, c} == {c, b, a} == {a, c, b} == {b, c, a} == {b, a, c} == {c, a, b};
    if ab < 0 then
      if bc < 0 then b else if cmp(s[a], s[c]) < 0 then c else a
    else
      if bc > 0 then b else if cmp(s[a], s[c]) > 0 then c else a
  }

  /** The pivot position: the middle, the median of three, or the median of three medians. */
  function PivotIndex<T(!new)>(s: seq<T>, lo: nat, hi: nat, cmp: Comparator<T>): (m: nat)
    requires lo < hi <= |s|
    ensures lo <= m < hi
  {
    var n := hi - lo;
    var pm := lo + n / 2;
    if n <= 7 then
      pm
    else if n <= 40 then
      Med3(s, lo, pm, hi - 1, cmp)
    else
      var offset := n / 8;
      var p1 := Med3(s, lo, lo + offset, lo + 2 * offset, cmp);
      var p2 := Med3(s, pm - offset, pm, pm + offset, cmp);
      var p3 := Med3(s, hi - 1 - 2 * offset, hi - 1 - offset, hi - 1, cmp);
      Med3(s, p1, p2, p3, cmp)
  }

  // ---------------------------------------------------------------- partition

  /** The state of the partition loop: the pivot p stands at lo; elements equal to it have been
      collected at both ends, smaller ones follow on the left and larger ones precede on the
      right; [pb, pc] has not been looked at. */
  ghost predicate Split<T>(s: seq<T>, lo: nat, pa: nat, pb: nat, pc: int, pd: int, hi: nat,
                           p: T, cmp: Comparator<T>)
  {
    && lo < pa <= pb <= pc + 1 && pc <= pd < hi <= |s|
    && s[lo] == p
    && (forall i :: lo < i < pa ==> cmp(s[i], p) == 0)
    && (forall i :: pa <= i < pb ==> cmp(s[i], p) < 0)
    && (forall i :: pc < i <= pd ==> cmp(s[i], p) > 0)
    && (forall i :: pd < i < hi ==> cmp(s[i], p) == 0)
  }

  lemma SplitEqualUp<T>(s: seq<T>, lo: nat, pa: nat, pb: nat, pc: int, pd: int, hi: nat,
                        p: T, cmp: Comparator<T>)
    requires Split(s, lo, pa, pb, pc, pd, hi, p, cmp)
    requires pb <= pc && cmp(s[pb], p) == 0
    ensures Split(Swapped(s, pa, pb), lo, pa + 1, pb + 1, pc, pd, hi, p, cmp)
  {
  }

  lemma SplitEqualDown<T>(s: seq<T>, lo: nat, pa: nat, pb: nat, pc: int, pd: int, hi: nat,
                          p: T, cmp: Comparator<T>)
    requires Split(s, lo, pa, pb, pc, pd, hi, p, cmp)
    requires pb <= pc && cmp(s[pc], p) == 0
    ensures Split(Swapped(s, pc, pd), lo, pa, pb, pc - 1, pd - 1, hi, p, cmp)
  {
  }

  lemma SplitExchange<T>(s: seq<T>, lo: nat, pa: nat, pb: nat, pc: int, pd: int, hi: nat,
                         p: T, cmp: Comparator<T>)
    requires Split(s, lo, pa, pb, pc, pd, hi, p, cmp)
    requires pb <= pc && cmp(s[pb], p) > 0 && cmp(s[pc], p) < 0
    ensures Split(Swapped(s, pb, pc), lo, pa, pb + 1, pc - 1, pd, hi, p, cmp)
  {
  }

  /** The first inner loop: advance pb over elements not above the pivot. */
  method ScanUp<T(!new)>(a: array<T>, lo: nat, pa0: nat, pb0: nat, pc: int, pd: int, hi: nat,
                         p: T, cmp: Comparator<T>) returns (pa: nat, pb: nat)
    requires Split(a[..], lo, pa0, pb0, pc, pd, hi, p, cmp)
    modifies a
    ensures Split(a[..], lo, pa, pb, pc, pd, hi, p, cmp)
    ensures Rearranged(old(a[..]), a[..], lo, hi)
    ensures pb0 <= pb && (pb <= pc ==> cmp(a[pb], p) > 0)
  {
    hide Rearranged;
    hide Swapped;
    ghost var before, s := a[..], a[..];
    RearrangedNot(s, lo, hi);
    pa, pb := pa0, pb0;
    while pb <= pc && cmp(a[pb], p) <= 0
      invariant pb0 <= pb
      invariant s == a[..]
      invariant Split(s, lo, pa, pb, pc, pd, hi, p, cmp)
      invariant Rearranged(before, s, lo, hi)
    {
      if cmp(a[pb], p) == 0 {
        SplitEqualUp(s, lo, pa, pb, pc, pd, hi, p, cmp);
        SwapRearranges(before, s, pa, pb, lo, hi);
        Swap(a, pa, pb);
        s := Swapped(s, pa, pb);
        pa := pa + 1;
      }
      pb := pb + 1;
    }
  }

  /** The second inner loop: move pc down over elements not below the pivot. */
  method ScanDown<T(!new)>(a: array<T>, lo: nat, pa: nat, pb: nat, pc0: int, pd0: int, hi: nat,
                           p: T, cmp: Comparator<T>) returns (pc: int, pd: int)
    requires Split(a[..], lo, pa, pb, pc0, pd0, hi, p, cmp)
    modifies a
    ensures Split(a[..], lo, pa, pb, pc, pd, hi, p, cmp)
    ensures Rearranged(old(a[..]), a[..], lo, hi)
    ensures pc <= pc0
    ensures pb <= pc ==> cmp(a[pc], p) < 0 && a[pb] == old(a[pb])
  {
    hide Rearranged;
    ghost var before, s := a[..], a[..];
    RearrangedNot(s, lo, hi);
    pc, pd := pc0, pd0;
    while pc >= pb && cmp(a[pc], p) >= 0
      invariant pc <= pc0
      invariant s == a[..]
      invariant Split(s, lo, pa, pb, pc, pd, hi, p, cmp)
      invariant Rearranged(before, s, lo, hi)
      invariant pb <= pc ==> s[pb] == before[pb]
    {
      if cmp(a[pc], p) == 0 {
        SplitEqualDown(s, lo, pa, pb, pc, pd, hi, p, cmp);
        SwapRearranges(before, s, pc, pd, lo, hi);
        Swap(a, pc, pd);
        s := Swapped(s, pc, pd);
        pd := pd - 1;
      }
      pc := pc - 1;
    }
  }

  lemma RearrangedTwice<T>(s: seq<T>, t: seq<T>, u: seq<T>, lo: nat, hi: nat)
    requires Rearranged(s, t, lo, hi) && Rearranged(t, u, lo, hi)
    ensures Rearranged(s, u, lo, hi)
  {
  }

  /** The partition loop: on exit nothing is left unlooked at. */
  method Separate<T(!new)>(a: array<T>, lo: nat, hi: nat, cmp: Comparator<T>)
    returns (pa: nat, pb: nat, pd: int)
    requires lo < hi <= a.Length
    modifies a
    ensures Split(a[..], lo, pa, pb, pb - 1, pd, hi, old(a[lo]), cmp)
    ensures Rearranged(old(a[..]), a[..], lo, hi)
  {
    ghost var before, s := a[..], a[..];
    var p := a[lo];
    pa, pb := lo + 1, lo + 1;
    var pc := hi - 1;
    pd := hi - 1;
    while true
      invariant s == a[..]
      invariant Split(s, lo, pa, pb, pc, pd, hi, p, cmp)
      invariant Rearranged(before, s, lo, hi)
      decreases pc - pb + 1
    {
      pa, pb := ScanUp(a, lo, pa, pb, pc, pd, hi, p, cmp);
      RearrangedTwice(before, s, a[..], lo, hi);
      s := a[..];
      pc, pd := ScanDown(a, lo, pa, pb, pc, pd, hi, p, cmp);
      RearrangedTwice(before, s, a[..], lo, hi);
      s := a[..];
      if pb > pc {
        break;
      }
      SplitExchange(s, lo, pa, pb, pc, pd, hi, p, cmp);
      SwapRearranges(before, s, pb, pc, lo, hi);
      Swap(a, pb, pc);
      s := Swapped(s, pb, pc);
      pb := pb + 1;
      pc := pc - 1;
    }
  }

  /** t is s with the k elements from i on and the k elements from j on exchanged. */
  ghost predicate BlocksExchanged<T>(s: seq<T>, t: seq<T>, i: nat, j: nat, k: nat)
  {
    && i + k <= j <= |s| - k && |s| == |t|
    && (forall m {:trigger t[m]} :: i <= m < i + k ==> t[m] == s[m - i + j])
    && (forall m {:trigger t[m]} :: j <= m < j + k ==> t[m] == s[m - j + i])
    && (forall m {:trigger t[m]} :: 0 <= m < |s| && !(i <= m < i + k) && !(j <= m < j + k) ==> t[m] == s[m])
  }

  lemma BlocksExchangedStep<T>(s: seq<T>, t: seq<T>, i: nat, j: nat, k: nat)
    requires BlocksExchanged(s, t, i, j, k)
    requires i + k < j && j + k < |s|
    ensures BlocksExchanged(s, Swapped(t, i + k, j + k), i, j, k + 1)
  {
  }

  /** Exchange two blocks that do not overlap, as cq_swapfunc does. */
  method SwapBlocks<T>(a: array<T>, i: nat, j: nat, k: nat, ghost lo: nat, ghost hi: nat)
    requires lo <= i && i + k <= j && j + k <= hi <= a.Length
    modifies a
    ensures BlocksExchanged(old(a[..]), a[..], i, j, k)
    ensures Rearranged(old(a[..]), a[..], lo, hi)
  {
    hide Rearranged;
    hide Swapped;
    ghost var before, s := a[..], a[..];
    RearrangedNot(s, lo, hi);
    var m := 0;
    while m < k
      invariant m <= k
      invariant s == a[..]
      invariant BlocksExchanged(before, s, i, j, m)
      invariant Rearranged(before, s, lo, hi)
    {
      BlocksExchangedStep(before, s, i, j, m);
      SwapRearranges(before, s, i + m, j + m, lo, hi);
      Swap(a, i + m, j + m);
      s := Swapped(s, i + m, j + m);
      m := m + 1;
    }
  }

  function Min(x: int, y: int): (m: int)
    ensures m <= x && m <= y && (m == x || m == y)
  {
    if x < y then x else y
  }

  /** What partitioning achieves: everything below the pivot, then the pivot and its equals, then
      everything above it. The middle is never empty, so both outer parts are shorter than the
      range, even under a comparator that denies cmp(p, p) == 0. */
  ghost predicate ThreeWay<T>(s: seq<T>, lo: nat, l: nat, g: nat, hi: nat, p: T, cmp: Comparator<T>)
  {
    && lo <= l < g <= hi <= |s|
    && (forall i :: lo <= i < l ==> cmp(s[i], p) < 0)
    && (forall i :: l <= i < g ==> cmp(s[i], p) == 0 || s[i] == p)
    && (forall i :: g <= i < hi ==> cmp(s[i], p) > 0)
  }

  /** Swapping the shorter of the two runs brings a run of equals from the left end of [lo, pb)
      to its right end. */
  lemma EqualsToRight<T>(s: seq<T>, t: seq<T>, lo: nat, pa: nat, pb: nat, k: nat,
                         p: T, cmp: Comparator<T>)
    requires lo < pa <= pb <= |s|
    requires forall i :: lo <= i < pa ==> cmp(s[i], p) == 0 || s[i] == p
    requires forall i :: pa <= i < pb ==> cmp(s[i], p) < 0
    requires k == Min(pa - lo, pb - pa)
    requires BlocksExchanged(s, t, lo, pb - k, k)
    ensures forall i :: lo <= i < lo + (pb - pa) ==> cmp(t[i], p) < 0
    ensures forall i :: lo + (pb - pa) <= i < pb ==> cmp(t[i], p) == 0 || t[i] == p
  {
  }

  /** The mirror image: equals at the right end of [pb, hi) move to its left end. */
  lemma EqualsToLeft<T>(s: seq<T>, t: seq<T>, pb: nat, pd: int, hi: nat, k: nat,
                        p: T, cmp: Comparator<T>)
    requires pb <= pd + 1 <= hi <= |s|
    requires forall i :: pb <= i <= pd ==> cmp(s[i], p) > 0
    requires forall i :: pd < i < hi ==> cmp(s[i], p) == 0
    requires k == Min(pd + 1 - pb, hi - pd - 1)
    requires BlocksExchanged(s, t, pb, hi - k, k)
    ensures forall i :: pb <= i < hi - (pd + 1 - pb) ==> cmp(t[i], p) == 0
    ensures forall i :: hi - (pd + 1 - pb) <= i < hi ==> cmp(t[i], p) > 0
  {
  }

  lemma Gathered<T>(s: seq<T>, t: seq<T>, u: seq<T>, lo: nat, pa: nat, pb: nat, pd: int, hi: nat,
                    k: nat, m: nat, p: T, cmp: Comparator<T>)
    requires Split(s, lo, pa, pb, pb - 1, pd, hi, p, cmp)
    requires k == Min(pa - lo, pb - pa)
    requires m == Min(pd + 1 - pb, hi - pd - 1)
    requires BlocksExchanged(s, t, lo, pb - k, k)
    requires BlocksExchanged(t, u, pb, hi - m, m)
    ensures ThreeWay(u, lo, lo + (pb - pa), hi - (pd + 1 - pb), hi, p, cmp)
  {
    EqualsToRight(s, t, lo, pa, pb, k, p, cmp);
    assert s[pb..] == t[pb..];
    assert forall i :: pb <= i < |s| ==> t[i] == s[i];
    EqualsToLeft(t, u, pb, pd, hi, m, p, cmp);
    assert forall i :: 0 <= i < pb ==> u[i] == t[i];
  }

  /** Bring the elements equal to the pivot from both ends into the middle. */
  method Gather<T>(a: array<T>, lo: nat, pa: nat, pb: nat, pd: int, hi: nat,
                   ghost p: T, ghost cmp: Comparator<T>) returns (l: nat, g: nat)
    requires Split(a[..], lo, pa, pb, pb - 1, pd, hi, p, cmp)
    modifies a
    ensures ThreeWay(a[..], lo, l, g, hi, p, cmp)
    ensures Rearranged(old(a[..]), a[..], lo, hi)
  {
    ghost var s := a[..];
    var k := Min(pa - lo, pb - pa);
    var m := Min(pd + 1 - pb, hi - pd - 1);
    SwapBlocks(a, lo, pb - k, k, lo, hi);
    ghost var t := a[..];
    SwapBlocks(a, pb, hi - m, m, lo, hi);
    ghost var u := a[..];
    l, g := lo + (pb - pa), hi - (pd + 1 - pb);
    assert Rearranged(s, u, lo, hi) by {
      RearrangedTwice(s, t, u, lo, hi);
    }
    assert ThreeWay(u, lo, l, g, hi, p, cmp) by {
      Gathered(s, t, u, lo, pa, pb, pd, hi, k, m, p, cmp);
    }
  }

  /** One round of quicksort on [lo, hi): pick a pivot, separate, and bring the equal elements to
      the middle. */
  method Partition<T(!new)>(a: array<T>, lo: nat, hi: nat, cmp: Comparator<T>)
    returns (l: nat, g: nat, ghost p: T)
    requires lo < hi <= a.Length
    modifies a
    ensures ThreeWay(a[..], lo, l, g, hi, p, cmp)
    ensures Rearranged(old(a[..]), a[..], lo, hi)
  {
    ghost var before := a[..];
    var pm := PivotIndex(a[..], lo, hi, cmp);
    SwapRearranges(before, before, lo, pm, lo, hi);
    Swap(a, lo, pm);
    ghost var s := a[..];
    p := a[lo];
    var pa, pb, pd := Separate(a, lo, hi, cmp);
    ghost var t := a[..];
    RearrangedTwice(before, s, t, lo, hi);
    l, g := Gather(a, lo, pa, pb, pd, hi, p, cmp);
    RearrangedTwice(before, t, a[..], lo, hi);
  }

  // ---------------------------------------------------------------- the stack of ranges

  datatype Range = Range(lo: nat, hi: nat)

  const TINY := 7

  /** Room for as many ranges as a size_t has bits, and one more; two words each. */
  const STACK_SIZE := (8 * 8 + 1) * 2

  const MAX_SIZE_T := 0x1_0000_0000_0000_0000

  /** A length doubled k times stays within n. */
  ghost predicate Doubles(len: nat, k: nat, n: nat)
    decreases k
  {
    if k == 0 then len <= n else Doubles(2 * len, k - 1, n)
  }

  /** The ranges still to be sorted: inside [lo, hi), apart from each other, and halving with
      depth. */
  ghost predicate Pending(rs: seq<Range>, lo: nat, hi: nat)
  {
    && (forall k :: 0 <= k < |rs| ==> lo <= rs[k].lo <= rs[k].hi <= hi)
    && (forall j, k :: 0 <= j < k < |rs| ==> rs[j].hi <= rs[k].lo || rs[k].hi <= rs[j].lo)
    && (forall k :: 0 <= k < |rs| ==> Doubles(rs[k].hi - rs[k].lo, k, hi - lo))
  }

  /** Positions i and j lie in one pending range. */
  ghost predicate Together(rs: seq<Range>, i: nat, j: nat)
  {
    exists k :: 0 <= k < |rs| && rs[k].lo <= i < rs[k].hi && rs[k].lo <= j < rs[k].hi
  }

  /** Two elements that no pending range holds together are in their final order. */
  ghost predicate Settled<T>(s: seq<T>, rs: seq<Range>, lo: nat, hi: nat, cmp: Comparator<T>)
    requires lo <= hi <= |s|
  {
    forall i, j :: lo <= i < j < hi && !Together(rs, i, j) ==> cmp(s[i], s[j]) <= 0
  }

  /** An upper bound on the work left. */
  ghost function Work(rs: seq<Range>): nat
  {
    if rs == [] then 0
    else
      var r := rs[|rs| - 1];
      Work(rs[..|rs| - 1]) + (if r.lo <= r.hi then 2 * (r.hi - r.lo) + 1 else 1)
  }

  /** The two outer parts after a partition, the longer one deeper; an empty shorter part is not
      stacked, and neither is anything when both are empty. */
  ghost function Pushed(rs: seq<Range>, lo: nat, l: nat, g: nat, hi: nat): seq<Range>
    requires lo <= l <= g <= hi
  {
    var big, small := if hi - g > l - lo then Range(g, hi) else Range(lo, l),
                      if hi - g > l - lo then Range(lo, l) else Range(g, hi);
    if l == lo && g == hi then rs
    else if small.lo == small.hi then rs + [big]
    else rs + [big, small]
  }

  lemma DoublesDeeper(len: nat, k: nat, n: nat)
    requires Doubles(2 * len, k, n)
    ensures Doubles(len, k + 1, n)
  {
  }

  lemma {:induction false} DoublesFewer(len: nat, len': nat, k: nat, n: nat)
    requires Doubles(len, k, n) && len' <= len
    ensures Doubles(len', k, n) && len <= n
    decreases k
  {
    if k > 0 {
      DoublesFewer(2 * len, 2 * len', k - 1, n);
    }
  }

  lemma DoublesFour(len: nat, k: nat, n: nat)
    requires Doubles(len, k, n) && k >= 4
    ensures Doubles(16 * len, k - 4, n)
  {
    assert Doubles(2 * len, k - 1, n);
    assert Doubles(4 * len, k - 2, n);
    assert Doubles(8 * len, k - 3, n);
  }

  lemma DoublesSixteen(len: nat, k: nat, n: nat)
    requires Doubles(len, k, n) && k >= 16
    ensures Doubles(0x1_0000 * len, k - 16, n)
  {
    DoublesFour(len, k, n);
    DoublesFour(16 * len, k - 4, n);
    DoublesFour(256 * len, k - 8, n);
    DoublesFour(4096 * len, k - 12, n);
  }

  /** No range long enough to be partitioned can lie 62 deep. */
  lemma DepthLimit(len: nat, k: nat, n: nat)
    requires Doubles(len, k, n) && len >= TINY && n < MAX_SIZE_T
    ensures k < 62
  {
    if k >= 62 {
      DoublesSixteen(len, k, n);
      DoublesSixteen(0x1_0000 * len, k - 16, n);
      DoublesSixteen(0x1_0000_0000 * len, k - 32, n);
      DoublesFour(0x1_0000_0000_0000 * len, k - 48, n);
      DoublesFour(0x10_0000_0000_0000 * len, k - 52, n);
      DoublesFour(0x100_0000_0000_0000 * len, k - 56, n);
      assert Doubles(0x2000_0000_0000_0000 * len, k - 61, n);
      DoublesFewer(0x4000_0000_0000_0000 * len, 0, k - 62, n);
    }
  }

  lemma PushedParts(rs: seq<Range>, lo: nat, l: nat, g: nat, hi: nat)
    requires lo <= l <= g <= hi
    ensures var now := Pushed(rs, lo, l, g, hi);
            && |rs| <= |now| <= |rs| + 2 && now[..|rs|] == rs
            && (lo < l ==> exists k :: |rs| <= k < |now| && now[k] == Range(lo, l))
            && (g < hi ==> exists k :: |rs| <= k < |now| && now[k] == Range(g, hi))
            && (forall k :: |rs| <= k < |now| ==> now[k] == Range(lo, l) || now[k] == Range(g, hi))
            && (|now| == |rs| + 2 ==> now[|rs|] != now[|rs| + 1]
                                      && now[|rs| + 1].hi - now[|rs| + 1].lo
                                         <= now[|rs|].hi - now[|rs|].lo)
  {
    var now, d := Pushed(rs, lo, l, g, hi), |rs|;
    if |now| > d {
      assert now[d] == Range(lo, l) || now[d] == Range(g, hi);
      if |now| == d + 2 {
        assert now[d + 1] == Range(lo, l) || now[d + 1] == Range(g, hi);
      }
    }
  }

  lemma PushedHalves(rs: seq<Range>, r: Range, l: nat, g: nat, n: nat)
    requires r.lo <= l < g <= r.hi
    requires Doubles(r.hi - r.lo, |rs|, n)
    ensures var now := Pushed(rs, r.lo, l, g, r.hi);
            forall k :: |rs| <= k < |now| ==> now[k].lo <= now[k].hi
                                              && Doubles(now[k].hi - now[k].lo, k, n)
  {
    hide Pushed, Doubles;
    var now, d := Pushed(rs, r.lo, l, g, r.hi), |rs|;
    PushedParts(rs, r.lo, l, g, r.hi);
    forall k | d <= k < |now|
      ensures now[k].lo <= now[k].hi && Doubles(now[k].hi - now[k].lo, k, n)
    {
      var len := now[k].hi - now[k].lo;
      DoublesFewer(r.hi - r.lo, if k == d then len else 2 * len, d, n);
      if k > d {
        DoublesDeeper(len, d, n);
      }
    }
  }

  lemma PushedApart(rs: seq<Range>, r: Range, l: nat, g: nat)
    requires r.lo <= l < g <= r.hi
    requires forall j :: 0 <= j < |rs| ==> rs[j].hi <= r.lo || r.hi <= rs[j].lo
    requires forall j, k :: 0 <= j < k < |rs| ==> rs[j].hi <= rs[k].lo || rs[k].hi <= rs[j].lo
    ensures var now := Pushed(rs, r.lo, l, g, r.hi);
            forall j, k :: 0 <= j < k < |now| ==> now[j].hi <= now[k].lo || now[k].hi <= now[j].lo
  {
    var now, d := Pushed(rs, r.lo, l, g, r.hi), |rs|;
    PushedParts(rs, r.lo, l, g, r.hi);
    assert forall k :: 0 <= k < d ==> rs[k] == now[k];
  }

  lemma PushedPending(rs: seq<Range>, r: Range, l: nat, g: nat, lo: nat, hi: nat)
    requires Pending(rs + [r], lo, hi)
    requires r.lo <= l < g <= r.hi
    ensures Pending(Pushed(rs, r.lo, l, g, r.hi), lo, hi)
  {
    hide Pushed;
    hide Doubles;
    var was, d := rs + [r], |rs|;
    assert was[d] == r;
    assert forall k :: 0 <= k < d ==> was[k] == rs[k];
    PushedParts(rs, r.lo, l, g, r.hi);
    PushedHalves(rs, r, l, g, hi - lo);
    PushedApart(rs, r, l, g);
  }

  lemma PushedWork(rs: seq<Range>, r: Range, l: nat, g: nat)
    requires r.lo <= l < g <= r.hi
    ensures Work(Pushed(rs, r.lo, l, g, r.hi)) < Work(rs + [r])
  {
    var was, now, d := rs + [r], Pushed(rs, r.lo, l, g, r.hi), |rs|;
    assert was[..d] == rs;
    if |now| == d + 1 {
      assert now[..d] == rs;
    } else if |now| == d + 2 {
      assert now[..d + 1] == rs + [now[d]];
      assert now[..d + 1][..d] == rs;
    }
  }

  /** Sorting a pending range outright settles it. */
  lemma SettleOrdered<T(!new)>(s: seq<T>, t: seq<T>, rs: seq<Range>, r: Range, lo: nat, hi: nat,
                               cmp: Comparator<T>)
    requires lo <= hi <= |s| && Pending(rs + [r], lo, hi) && TotalPreorder(cmp)
    requires Settled(s, rs + [r], lo, hi, cmp)
    requires Rearranged(s, t, r.lo, r.hi) && Ordered(t, r.lo, r.hi, cmp)
    ensures Settled(t, rs, lo, hi, cmp)
  {
    forall i, j | lo <= i < j < hi && !Together(rs, i, j)
      ensures cmp(t[i], t[j]) <= 0
    {
      if !(r.lo <= i < r.hi && r.lo <= j < r.hi) {
        SettleAcross(s, t, rs, r, lo, hi, cmp, i, j);
      }
    }
  }

  /** Rearranging one pending range leaves its elements settled against all others. */
  lemma SettleAcross<T(!new)>(s: seq<T>, t: seq<T>, rs: seq<Range>, r: Range, lo: nat, hi: nat,
                              cmp: Comparator<T>, i: nat, j: nat)
    requires lo <= hi <= |s| && Pending(rs + [r], lo, hi)
    requires Settled(s, rs + [r], lo, hi, cmp)
    requires Rearranged(s, t, r.lo, r.hi)
    requires lo <= i < j < hi && !Together(rs, i, j)
    requires !(r.lo <= i < r.hi && r.lo <= j < r.hi)
    ensures cmp(t[i], t[j]) <= 0
  {
    var was := rs + [r];
    assert was[|rs|] == r;
    assert forall k :: 0 <= k < |rs| ==> was[k] == rs[k];
    var i' := i;
    var j' := j;
    if r.lo <= i < r.hi {
      RearrangedOrigin(s, t, r.lo, r.hi, i);
      i' :| r.lo <= i' < r.hi && s[i'] == t[i];
    }
    if r.lo <= j < r.hi {
      RearrangedOrigin(s, t, r.lo, r.hi, j);
      j' :| r.lo <= j' < r.hi && s[j'] == t[j];
    }
    assert i' < j' && !Together(was, i', j');
  }

  /** Partitioning a pending range leaves only its outer parts to settle. */
  lemma SettlePartition<T(!new)>(s: seq<T>, t: seq<T>, rs: seq<Range>, r: Range, l: nat, g: nat,
                                 lo: nat, hi: nat, p: T, cmp: Comparator<T>)
    requires lo <= hi <= |s| && Pending(rs + [r], lo, hi) && TotalPreorder(cmp)
    requires Settled(s, rs + [r], lo, hi, cmp)
    requires Rearranged(s, t, r.lo, r.hi) && ThreeWay(t, r.lo, l, g, r.hi, p, cmp)
    ensures Settled(t, Pushed(rs, r.lo, l, g, r.hi), lo, hi, cmp)
  {
    var now := Pushed(rs, r.lo, l, g, r.hi);
    assert forall k :: 0 <= k < |rs| ==> now[k] == rs[k];
    PushedParts(rs, r.lo, l, g, r.hi);
    forall i, j | lo <= i < j < hi && !Together(now, i, j)
      ensures cmp(t[i], t[j]) <= 0
    {
      assert !Together(rs, i, j);
      if r.lo <= i < r.hi && r.lo <= j < r.hi {
        assert !(i < l && j < l) && !(g <= i && g <= j);
        assert cmp(p, p) == 0;
        assert cmp(t[i], p) <= 0 && cmp(p, t[j]) <= 0;
      } else {
        SettleAcross(s, t, rs, r, lo, hi, cmp, i, j);
      }
    }
  }

  // ---------------------------------------------------------------- click_qsort

  /** The stack array holds exactly the ranges rs, as offsets from base. */
  ghost predicate Holds(stack: seq<nat>, sp: nat, rs: seq<Range>, base: nat)
  {
    && sp == 2 * |rs| <= |stack| == STACK_SIZE
    && (forall k :: 0 <= k < |rs| ==> rs[k] == Range(base + stack[2 * k], base + stack[2 * k + 1]))
  }

  lemma HoldsOne(stack: seq<nat>, base: nat)
    requires |stack| == STACK_SIZE
    ensures Holds(stack, 2, [Range(base + stack[0], base + stack[1])], base)
  {
  }

  lemma HoldsTop(stack: seq<nat>, sp: nat, rs: seq<Range>, base: nat)
    requires Holds(stack, sp, rs, base) && sp != 0
    ensures rs != [] && 2 <= sp <= |stack| == STACK_SIZE && sp == 2 * |rs|
    ensures rs[|rs| - 1] == Range(base + stack[sp - 2], base + stack[sp - 1])
    ensures Holds(stack, sp - 2, rs[..|rs| - 1], base)
  {
  }

  lemma HoldsNone(stack: seq<nat>, rs: seq<Range>, base: nat)
    requires Holds(stack, 0, rs, base)
    ensures rs == []
  {
  }

  lemma PushedNothing(rs: seq<Range>, lo: nat, l: nat, g: nat, hi: nat)
    requires lo == l <= g == hi
    ensures Pushed(rs, lo, l, g, hi) == rs
  {
  }

  lemma HoldsParts(was: seq<nat>, now: seq<nat>, sp: nat, sp': nat, rs: seq<Range>, base: nat,
                   lo: nat, l: nat, g: nat, hi: nat)
    requires Holds(was, sp, rs, base) && sp + 4 < |was| == |now|
    requires base <= lo <= l < g <= hi && (lo < l || g < hi)
    requires forall k :: 0 <= k < sp ==> now[k] == was[k]
    requires if hi - g > l - lo
             then now[sp] == g - base && now[sp + 1] == hi - base
                  && now[sp + 2] == lo - base && now[sp + 3] == l - base
             else now[sp] == lo - base && now[sp + 1] == l - base
                  && now[sp + 2] == g - base && now[sp + 3] == hi - base
    requires sp' == sp + if now[sp + 2] != now[sp + 3] then 4 else 2
    ensures Holds(now, sp', Pushed(rs, lo, l, g, hi), base)
  {
    var ps := Pushed(rs, lo, l, g, hi);
    forall k | 0 <= k < |ps|
      ensures ps[k] == Range(base + now[2 * k], base + now[2 * k + 1])
    {
      if k < |rs| {
        assert ps[k] == rs[k];
      }
    }
  }

  /** Stack the two outer parts of the range that stood at sp. */
  method PushParts(stack: array<nat>, sp: nat, base: nat, l: nat, g: nat, ghost rs: seq<Range>)
    returns (sp': nat)
    requires stack.Length == STACK_SIZE && sp + 4 < STACK_SIZE
    requires Holds(stack[..], sp, rs, base)
    requires base + stack[sp] <= l < g <= base + stack[sp + 1]
    requires l != base + stack[sp] || g != base + stack[sp + 1]
    modifies stack
    ensures Holds(stack[..], sp', Pushed(rs, old(base + stack[sp]), l, g, old(base + stack[sp + 1])), base)
    ensures sp' > 0
  {
    hide Holds, Pushed;
    ghost var lo, hi, was := base + stack[sp], base + stack[sp + 1], stack[..];
    stack[sp + 2], stack[sp + 3] := g - base, stack[sp + 1];
    stack[sp + 1] := l - base;
    if stack[sp + 3] - stack[sp + 2] > stack[sp + 1] - stack[sp] {
      stack[sp], stack[sp + 2] := stack[sp + 2], stack[sp];
      stack[sp + 1], stack[sp + 3] := stack[sp + 3], stack[sp + 1];
    }
    sp' := sp + (if stack[sp + 2] != stack[sp + 3] then 4 else 2);
    HoldsParts(was, stack[..], sp, sp', rs, base, lo, l, g, hi);
  }

  /** What holds between two rounds of the main loop. */
  ghost predicate Progress<T(!new)>(before: seq<T>, s: seq<T>, rs: seq<Range>, lo: nat, hi: nat,
                                    cmp: Comparator<T>)
  {
    && Pending(rs, lo, hi)
    && Rearranged(before, s, lo, hi)
    && (TotalPreorder(cmp) ==> Settled(s, rs, lo, hi, cmp))
  }

  lemma ProgressStarts<T(!new)>(s: seq<T>, lo: nat, hi: nat, cmp: Comparator<T>)
    requires lo <= hi <= |s|
    ensures Progress(s, s, [Range(lo, hi)], lo, hi, cmp)
  {
    assert [Range(lo, hi)][0] == Range(lo, hi);
  }

  lemma ProgressDone<T(!new)>(before: seq<T>, s: seq<T>, lo: nat, hi: nat, cmp: Comparator<T>)
    requires Progress(before, s, [], lo, hi, cmp)
    ensures Rearranged(before, s, lo, hi)
    ensures TotalPreorder(cmp) ==> Ordered(s, lo, hi, cmp)
  {
  }

  /** The topmost range lies in bounds and, unless tiny, leaves room on the stack. */
  lemma ProgressRange<T(!new)>(before: seq<T>, s: seq<T>, rs: seq<Range>, r: Range, lo: nat, hi: nat,
                               cmp: Comparator<T>)
    requires Progress(before, s, rs + [r], lo, hi, cmp)
    requires hi - lo < MAX_SIZE_T
    ensures lo <= r.lo <= r.hi <= hi
    ensures r.hi - r.lo >= TINY ==> 2 * |rs| + 4 < STACK_SIZE
  {
    assert (rs + [r])[|rs|] == r;
    if r.hi - r.lo >= TINY {
      DepthLimit(r.hi - r.lo, |rs|, hi - lo);
    }
  }

  lemma ProgressTiny<T(!new)>(before: seq<T>, s: seq<T>, t: seq<T>, rs: seq<Range>, r: Range,
                              lo: nat, hi: nat, cmp: Comparator<T>)
    requires Progress(before, s, rs + [r], lo, hi, cmp)
    requires Rearranged(s, t, r.lo, r.hi)
    requires TotalPreorder(cmp) ==> Ordered(t, r.lo, r.hi, cmp)
    ensures Progress(before, t, rs, lo, hi, cmp)
    ensures Work(rs) < Work(rs + [r])
  {
    var was := rs + [r];
    assert was[..|rs|] == rs && was[|rs|] == r;
    assert forall k :: 0 <= k < |rs| ==> was[k] == rs[k];
    if TotalPreorder(cmp) {
      SettleOrdered(s, t, rs, r, lo, hi, cmp);
    }
  }

  lemma ProgressPartition<T(!new)>(before: seq<T>, s: seq<T>, t: seq<T>, rs: seq<Range>, r: Range,
                                   l: nat, g: nat, p: T, lo: nat, hi: nat, cmp: Comparator<T>)
    requires Progress(before, s, rs + [r], lo, hi, cmp)
    requires Rearranged(s, t, r.lo, r.hi) && ThreeWay(t, r.lo, l, g, r.hi, p, cmp)
    ensures Progress(before, t, Pushed(rs, r.lo, l, g, r.hi), lo, hi, cmp)
    ensures Work(Pushed(rs, r.lo, l, g, r.hi)) < Work(rs + [r])
  {
    assert (rs + [r])[|rs|] == r;
    PushedPending(rs, r, l, g, lo, hi);
    PushedWork(rs, r, l, g);
    if TotalPreorder(cmp) {
      SettlePartition(s, t, rs, r, l, g, lo, hi, p, cmp);
    }
  }

  /** One round of the main loop on the range popped off the stack: a tiny range is sorted, any other
      is partitioned around l, ..., g - 1. */
  method OneRound<T(!new)>(a: array<T>, lo: nat, hi: nat, cmp: Comparator<T>,
                           ghost before: seq<T>, ghost rest: seq<Range>, ghost first: nat, ghost last: nat)
    returns (tiny: bool, l: nat, g: nat)
    requires Progress(before, a[..], rest + [Range(lo, hi)], first, last, cmp)
    requires last <= a.Length && 0 <= last - first < MAX_SIZE_T
    modifies a
    ensures !tiny ==> lo <= l < g <= hi && 2 * |rest| + 4 < STACK_SIZE
    ensures var rs := if tiny then rest else Pushed(rest, lo, l, g, hi);
            Progress(before, a[..], rs, first, last, cmp) && Work(rs) < Work(rest + [Range(lo, hi)])
  {
    hide Progress, Pushed, Rearranged, Ordered, TotalPreorder, ThreeWay, Work;
    ghost var s, r := a[..], Range(lo, hi);
    ProgressRange(before, s, rest, r, first, last, cmp);
    tiny, l, g := hi - lo < TINY, lo, hi;
    if tiny {
      InsertionSort(a, lo, hi, cmp);
      ProgressTiny(before, s, a[..], rest, r, first, last, cmp);
    } else {
      ghost var p;
      l, g, p := Partition(a, lo, hi, cmp);
      ThreeWayBounds(a[..], lo, l, g, hi, p, cmp);
      ProgressPartition(before, s, a[..], rest, r, l, g, p, first, last, cmp);
    }
  }

  lemma ThreeWayBounds<T(!new)>(s: seq<T>, lo: nat, l: nat, g: nat, hi: nat, p: T, cmp: Comparator<T>)
    requires ThreeWay(s, lo, l, g, hi, p, cmp)
    ensures lo <= l < g <= hi
  {
  }

  /** click_qsort on the n elements from base on: under every comparator it terminates, stays
      within its stack and leaves a permutation; under a total preorder the result is sorted. */
  method Sort<T(!new)>(a: array<T>, base: nat, n: nat, cmp: Comparator<T>)
    requires base + n <= a.Length && n < MAX_SIZE_T
    modifies a
    ensures Rearranged(old(a[..]), a[..], base, base + n)
    ensures TotalPreorder(cmp) ==> Ordered(a[..], base, base + n, cmp)
  {
    hide Holds, Progress, Pushed, Rearranged, Ordered, TotalPreorder, Work;
    ghost var before, rs := a[..], [Range(base, base + n)];
    ProgressStarts(before, base, base + n, cmp);
    var stack := new nat[STACK_SIZE];
    stack[0], stack[1] := 0, n;
    var sp := 2;
    HoldsOne(stack[..], base);
    while sp != 0
      invariant Holds(stack[..], sp, rs, base)
      invariant Progress(before, a[..], rs, base, base + n, cmp)
      decreases Work(rs)
    {
      HoldsTop(stack[..], sp, rs, base);
      sp := sp - 2;
      ghost var r, rest := rs[|rs| - 1], rs[..|rs| - 1];
      assert rs == rest + [r];
      var lo, hi := base + stack[sp], base + stack[sp + 1];
      var tiny, l, g := OneRound(a, lo, hi, cmp, before, rest, base, base + n);
      rs := if tiny then rest else Pushed(rest, lo, l, g, hi);
      if tiny {
        continue;
      }
      if l == lo && g == hi {
        PushedNothing(rest, lo, l, g, hi);
        continue;
      }
      sp := PushParts(stack, sp, base, l, g, rest);
    }
    HoldsNone(stack[..], rs, base);
    ProgressDone(before, a[..], base, base + n, cmp);
  }
}
