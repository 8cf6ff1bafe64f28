/** Flow codes: Element::port_flow reads which packets may travel between which ports of an element
    off a text such as "xy/[xy]x", whose last code on each side stands for all further ports. */
module FlowCode {
  import opened Common

  predicate IsLetter(c: char)
  {
    'A' <= c <= 'Z' || 'a' <= c <= 'z'
  }

  predicate IsItem(c: char)
  {
    IsLetter(c) || c == '#'
  }

  // ---------------------------------------------------------------- scanning, as coded

  /** A Bitvector of 256 bits: one for each character, and 128 for the ports that "#" can stand for. */
  function NoBits(): (bits: seq<bool>)
    ensures |bits| == 256 && forall i :: 0 <= i < 256 ==> !bits[i]
  {
    seq(256, _ => false)
  }

  function Flipped(bits: seq<bool>): (bits': seq<bool>)
    ensures |bits'| == |bits| && forall i :: 0 <= i < |bits| ==> bits'[i] == !bits[i]
  {
    seq(|bits|, i requires 0 <= i < |bits| => !bits[i])
  }

  /** The bit an item sets. */
  function ItemBit(c: char, port: nat): (b: nat)
    requires IsItem(c) && port < 128
    ensures b < 256
  {
    if c == '#' then port + 128 else c as int
  }

  /** At the end of a side, or of the text, where the terminating null character is. */
  predicate AtEnd(f: string, p: nat)
    requires p <= |f|
  {
    p == |f| || f[p] == '/'
  }

  /** Past a bracket's items: past the ']', or the end of the text. */
  function CloseBracket(f: string, p: nat): (q: nat)
    requires p <= |f|
    ensures p <= q <= |f|
    decreases |f| - p
  {
    if p == |f| then p else if f[p] == ']' then p + 1 else CloseBracket(f, p + 1)
  }

  function Skip(f: string, p: nat): (q: nat)
    requires p <= |f|
    ensures p <= q <= |f|
  {
    if AtEnd(f, p) then p
    else if f[p] == '[' then CloseBracket(f, p + 1)
    else p + 1
  }

  /** The last '[' at or before p, if there is one. */
  function OpenBracket(f: string, p: int): (q: Option<nat>)
    requires p < |f|
    ensures q.Some? ==> q.value <= p && f[q.value] == '['
  {
    if p < 0 then None else if f[p] == '[' then Some(p) else OpenBracket(f, p - 1)
  }

  /** Back to the last code if p is at the end of its side. None: that is in front of the text. */
  function BackUp(f: string, p: nat): (q: Option<nat>)
    requires p <= |f|
    ensures q.Some? ==> q.value < |f|
  {
    if !AtEnd(f, p) then Some(p)
    else if p == 0 then None
    else if f[p - 1] == ']' then OpenBracket(f, p - 2)
    else Some(p - 1)
  }

  /** The items of a bracket: where it ends, the bits with theirs set, and whether all were valid. */
  function Items(f: string, p: nat, port: nat, bits: seq<bool>): (r: (nat, seq<bool>, bool))
    requires p <= |f| && port < 128 && |bits| == 256
    ensures p <= r.0 <= |f| && |r.1| == 256
    decreases |f| - p
  {
    if p == |f| || f[p] == ']' then (p, bits, true)
    else if IsItem(f[p]) then Items(f, p + 1, port, bits[ItemBit(f[p], port) := true])
    else
      var (q, bits', _) := Items(f, p + 1, port, bits);
      (q, bits', false)
  }

  /** What next_flow_code leaves: the position behind the code, its bits, and whether it was valid. */
  datatype Next = Next(p: nat, bits: seq<bool>, valid: bool)

  function NextCode(f: string, p: nat, port: nat): (r: Option<Next>)
    requires p <= |f| && port < 128
    ensures r.Some? ==> r.value.p <= |f| && |r.value.bits| == 256
  {
    match BackUp(f, p)
    case None => None
    case Some(s) => Some(CodeAt(f, s, port))
  }

  function CodeAt(f: string, s: nat, port: nat): (r: Next)
    requires s < |f| && port < 128
    ensures r.p <= |f| && |r.bits| == 256
  {
    if f[s] == '[' then
      var negated := s + 1 < |f| && f[s + 1] == '^';
      var (q, bits, valid) := Items(f, if negated then s + 2 else s + 1, port, NoBits());
      var bits' := if negated then Flipped(bits) else bits;
      if q == |f| then Next(q, bits', false) else Next(q + 1, bits', valid)
    else if IsItem(f[s]) then Next(s + 1, NoBits()[ItemBit(f[s], port) := true], true)
    else Next(s + 1, NoBits(), false)
  }

  predicate Intersect(a: seq<bool>, b: seq<bool>)
    requires |a| == |b|
  {
    exists i :: 0 <= i < |a| && a[i] && b[i]
  }

  function Slash(f: string, p: nat): (q: nat)
    requires p <= |f|
    ensures p <= q <= |f| && (q < |f| ==> f[q] == '/')
    ensures forall i :: p <= i < q ==> f[i] != '/'
    decreases |f| - p
  {
    if AtEnd(f, p) then p else Slash(f, p + 1)
  }

  /** Where the output side starts. */
  function OutSide(f: string): (q: nat)
    ensures q <= |f|
  {
    var s := Slash(f, 0);
    if s < |f| then s + 1 else 0
  }

  function SkipCodes(f: string, p: nat, n: nat): (q: nat)
    requires p <= |f|
    ensures p <= q <= |f|
    decreases n
  {
    if n == 0 then p else SkipCodes(f, Skip(f, p), n - 1)
  }

  /** Which of the ports i, ..., n - 1 the code at p and those behind it connect to bits. */
  function Travels(f: string, p: nat, bits: seq<bool>, i: nat, n: nat): (r: Option<seq<bool>>)
    requires p <= |f| && |bits| == 256 && i <= n <= 128
    ensures r.Some? ==> |r.value| == n - i
    decreases n - i
  {
    if i == n then Some([])
    else
      match NextCode(f, p, i)
      case None => None
      case Some(next) =>
        match Travels(f, next.p, bits, i + 1, n)
        case None => None
        case Some(rest) => Some([Intersect(bits, next.bits)] + rest)
  }

  /** port_flow for port p of n, with the ports of the other kind numbered below other. complete is
      whether the code is the shared text COMPLETE_FLOW. None: it would read in front of the text. */
  function PortFlow(f: string, complete: bool, isOutput: bool, p: int, n: nat, other: nat): (r: Option<seq<bool>>)
    requires n <= 128 && other <= 128
    ensures r.Some? ==> |r.value| == other
  {
    if !(0 <= p < n) then Some(seq(other, _ => false))
    else if complete then Some(seq(other, _ => true))
    else if AtEnd(f, OutSide(f)) then Some(seq(other, _ => false))
    else
      var here := if isOutput then OutSide(f) else 0;
      var there := if isOutput then 0 else OutSide(f);
      match NextCode(f, SkipCodes(f, here, p), p)
      case None => None
      case Some(next) => Travels(f, there, next.bits, 0, other)
  }

  // ---------------------------------------------------------------- what a flow code means

  /** One code: an item, or a bracket of items. */
  datatype Code = One(c: char) | Group(negated: bool, items: seq<char>)

  predicate Proper(code: Code)
  {
    match code
    case One(c) => IsItem(c)
    case Group(_, items) => forall i :: 0 <= i < |items| ==> IsItem(items[i])
  }

  function Text(code: Code): (s: string)
    ensures s != []
  {
    match code
    case One(c) => [c]
    case Group(negated, items) => "[" + (if negated then "^" else "") + items + "]"
  }

  function Texts(codes: seq<Code>): (s: string)
  {
    if codes == [] then [] else Text(codes[0]) + Texts(codes[1..])
  }

  /** Whether one of the items sets bit b. */
  ghost predicate Sets(items: string, port: nat, b: nat)
    requires port < 128 && forall i :: 0 <= i < |items| ==> IsItem(items[i])
  {
    exists i :: 0 <= i < |items| && ItemBit(items[i], port) == b
  }

  /** Whether the code of a port admits bit b. */
  ghost predicate Admits(code: Code, port: nat, b: nat)
    requires Proper(code) && port < 128
  {
    match code
    case One(c) => ItemBit(c, port) == b
    case Group(negated, items) => negated != Sets(items, port, b)
  }

  /** The rule: packets travel between two ports whose codes have something in common. */
  ghost predicate Meet(code: Code, port: nat, code': Code, port': nat)
    requires Proper(code) && Proper(code') && port < 128 && port' < 128
  {
    exists b :: 0 <= b < 256 && Admits(code, port, b) && Admits(code', port', b)
  }

  /** The code of a port: the last one stands for all further ports. */
  function CodeOf(codes: seq<Code>, port: nat): (code: Code)
    requires codes != []
  {
    if port < |codes| then codes[port] else codes[|codes| - 1]
  }

  /** From position p of f on, up to a slash or the end, there are the codes. */
  ghost predicate Side(f: string, p: nat, codes: seq<Code>)
  {
    && codes != [] && (forall i :: 0 <= i < |codes| ==> Proper(codes[i]))
    && p + |Texts(codes)| <= |f| && f[p..p + |Texts(codes)|] == Texts(codes) && AtEnd(f, p + |Texts(codes)|)
  }

  /** A text with input codes and output codes; without a slash the same codes are both. */
  ghost predicate WellFormed(f: string, ins: seq<Code>, outs: seq<Code>)
  {
    && Side(f, 0, ins)
    && if |Texts(ins)| == |f| then outs == ins else Side(f, |Texts(ins)| + 1, outs)
  }

  // ---------------------------------------------------------------- one code

  /** There is s in f at position p. */
  ghost predicate Has(f: string, p: nat, s: string)
  {
    p + |s| <= |f| && f[p..p + |s|] == s
  }

  lemma {:induction false} ItemsRead(f: string, p: nat, items: string, port: nat, bits: seq<bool>)
    requires Has(f, p, items + "]") && port < 128 && |bits| == 256
    requires forall i :: 0 <= i < |items| ==> IsItem(items[i])
    ensures var r := Items(f, p, port, bits);
            && r.0 == p + |items| && r.2
            && forall b :: 0 <= b < 256 ==> r.1[b] == (bits[b] || Sets(items, port, b))
    decreases |items|
  {
    if items == [] {
      assert f[p] == (items + "]")[0];
    } else {
      assert f[p] == f[p..p + |items| + 1][0] == items[0];
      var more, k := items[1..], ItemBit(items[0], port);
      assert f[p + 1..p + 1 + |more| + 1] == f[p..p + |items| + 1][1..] == more + "]";
      ItemsRead(f, p + 1, more, port, bits[k := true]);
      forall b | 0 <= b < 256
        ensures Sets(items, port, b) == (b == k || Sets(more, port, b))
      {
        ItemOrMore(items, port, b);
      }
    }
  }

  lemma ItemOrMore(items: string, port: nat, b: nat)
    requires items != [] && port < 128 && forall i :: 0 <= i < |items| ==> IsItem(items[i])
    ensures Sets(items, port, b) <==> b == ItemBit(items[0], port) || Sets(items[1..], port, b)
  {
    hide ItemBit;
    var more := items[1..];
    if Sets(items, port, b) {
      var i :| 0 <= i < |items| && ItemBit(items[i], port) == b;
      assert i > 0 ==> more[i - 1] == items[i];
    }
    if Sets(more, port, b) {
      var i :| 0 <= i < |more| && ItemBit(more[i], port) == b;
      assert more[i] == items[i + 1];
    }
  }

  /** The bits of a code are those it admits. */
  ghost predicate Means(bits: seq<bool>, code: Code, port: nat)
    requires |bits| == 256 && Proper(code) && port < 128
  {
    forall b :: 0 <= b < 256 ==> bits[b] == Admits(code, port, b)
  }

  lemma SliceOfSlice(f: string, p: nat, n: nat, a: nat, b: nat)
    requires a + b <= n && p + n <= |f|
    ensures f[p..p + n][a..a + b] == f[p + a..p + a + b]
  {
    var x, y := f[p..p + n][a..a + b], f[p + a..p + a + b];
    assert forall k :: 0 <= k < b ==> x[k] == f[p + a + k] == y[k];
  }

  /** Where in f the parts of a group are. */
  lemma GroupHas(f: string, s: nat, negated: bool, items: string)
    requires Proper(Group(negated, items)) && Has(f, s, Text(Group(negated, items)))
    ensures f[s] == '[' && s + 1 < |f| && (f[s + 1] == '^' <==> negated)
    ensures Has(f, if negated then s + 2 else s + 1, items + "]")
  {
    hide IsItem;
    var head, tail := if negated then "[^" else "[", items + "]";
    var t := Text(Group(negated, items));
    assert t == head + tail;
    assert f[s] == f[s..s + |t|][0] == '[';
    assert f[s + 1] == f[s..s + |t|][1] == t[1];
    if !negated {
      assert t[1] == tail[0];
      CaretIsNoItem();
    }
    SliceOfSlice(f, s, |t|, |head|, |tail|);
    assert t[|head|..|head| + |tail|] == tail;
  }

  lemma CaretIsNoItem()
    ensures !IsItem('^')
  {
  }

  lemma GroupReads(f: string, s: nat, negated: bool, items: string, port: nat)
    requires Proper(Group(negated, items)) && Has(f, s, Text(Group(negated, items))) && port < 128
    ensures var code := Group(negated, items);
            var r := CodeAt(f, s, port);
            r.p == s + |Text(code)| && r.valid && Means(r.bits, code, port)
  {
    hide Items, IsItem, Sets;
    GroupHas(f, s, negated, items);
    ItemsRead(f, if negated then s + 2 else s + 1, items, port, NoBits());
  }

  lemma CodeReads(f: string, s: nat, code: Code, port: nat)
    requires Proper(code) && Has(f, s, Text(code)) && port < 128
    ensures var r := CodeAt(f, s, port);
            r.p == s + |Text(code)| && r.valid && Means(r.bits, code, port)
  {
    match code
    case Group(negated, items) => GroupReads(f, s, negated, items, port);
    case One(c) => assert f[s] == f[s..s + 1][0] == c;
  }

  lemma {:induction false} ItemsValid(f: string, p: nat, port: nat, bits: seq<bool>)
    requires p <= |f| && port < 128 && |bits| == 256
    ensures var r := Items(f, p, port, bits);
            && (r.0 < |f| ==> f[r.0] == ']') && (r.2 ==> forall i :: p <= i < r.0 ==> IsItem(f[i]))
    decreases |f| - p
  {
    hide ItemBit, IsItem;
    if p < |f| && f[p] != ']' {
      ItemsValid(f, p + 1, port, if IsItem(f[p]) then bits[ItemBit(f[p], port) := true] else bits);
    }
  }

  lemma BracketValid(f: string, s: nat, port: nat) returns (code: Code)
    requires s < |f| && port < 128 && f[s] == '[' && CodeAt(f, s, port).valid
    ensures Proper(code) && Has(f, s, Text(code))
  {
    hide Items, IsItem;
    var negated := s + 1 < |f| && f[s + 1] == '^';
    var lo := if negated then s + 2 else s + 1;
    var q := Items(f, lo, port, NoBits()).0;
    ItemsValid(f, lo, port, NoBits());
    assert q < |f| && forall i :: lo <= i < q ==> IsItem(f[i]);
    hide CodeAt;
    code := Group(negated, f[lo..q]);
    assert f[s..q + 1] == f[s..lo] + f[lo..q] + [f[q]];
    assert f[s..lo] == "[" + if negated then "^" else "";
  }

  /** next_flow_code complains exactly if no proper code stands where it reads. */
  lemma ValidExactly(f: string, s: nat, port: nat)
    requires s < |f| && port < 128
    ensures CodeAt(f, s, port).valid <==> exists code :: Proper(code) && Has(f, s, Text(code))
  {
    hide Items, IsItem, ItemBit, Has;
    if CodeAt(f, s, port).valid {
      if f[s] == '[' {
        var code := BracketValid(f, s, port);
      } else {
        OneStands(f, s);
        assert Proper(One(f[s]));
      }
    }
    if code :| Proper(code) && Has(f, s, Text(code)) {
      hide CodeAt;
      CodeReads(f, s, code, port);
    }
  }

  lemma OneStands(f: string, s: nat)
    requires s < |f|
    ensures Has(f, s, Text(One(f[s])))
  {
    assert f[s..s + 1] == [f[s]];
  }

  lemma {:induction false} Closes(f: string, p: nat, items: string)
    requires Has(f, p, items + "]") && forall i :: 0 <= i < |items| ==> items[i] != ']'
    ensures CloseBracket(f, p) == p + |items| + 1
    decreases |items|
  {
    if items == [] {
      assert f[p] == (items + "]")[0];
    } else {
      assert f[p] == f[p..p + |items| + 1][0] == items[0];
      var more := items[1..];
      assert f[p + 1..p + 1 + |more| + 1] == f[p..p + |items| + 1][1..] == more + "]";
      Closes(f, p + 1, more);
    }
  }

  lemma {:induction false} Opens(f: string, s: nat, p: nat)
    requires s <= p < |f| && f[s] == '[' && forall i :: s < i <= p ==> f[i] != '['
    ensures OpenBracket(f, p) == Some(s)
    decreases p
  {
    if p > s {
      Opens(f, s, p - 1);
    }
  }

  /** What is behind the '[' of a group. */
  function Inner(negated: bool, items: string): (s: string)
  {
    (if negated then "^" else "") + items
  }

  lemma InnerIsPlain(negated: bool, items: string)
    requires forall i :: 0 <= i < |items| ==> IsItem(items[i])
    ensures Text(Group(negated, items)) == "[" + (Inner(negated, items) + "]")
    ensures forall i :: 0 <= i < |Inner(negated, items)| ==> Inner(negated, items)[i] !in "[]/"
  {
  }

  lemma GroupSkips(f: string, s: nat, inner: string)
    requires Has(f, s, "[" + (inner + "]")) && forall i :: 0 <= i < |inner| ==> inner[i] !in "[]/"
    ensures var end := s + |inner| + 2;
            && f[s] == '[' && CloseBracket(f, s + 1) == end && f[end - 1] == ']'
            && OpenBracket(f, end - 2) == Some(s)
  {
    hide CloseBracket, OpenBracket;
    var end := s + |inner| + 2;
    assert f[s] == f[s..end][0] == '[';
    assert f[s + 1..end] == f[s..end][1..] == inner + "]";
    Closes(f, s + 1, inner);
    assert f[end - 1] == f[s + 1..end][|inner|] == ']';
    forall i | s < i <= end - 2
      ensures f[i] != '['
    {
      assert f[i] == f[s + 1..end][i - s - 1] == inner[i - s - 1];
    }
    Opens(f, s, end - 2);
  }

  /** Skipping a code, and going back to it from its end. */
  lemma CodeSkips(f: string, s: nat, code: Code)
    requires Proper(code) && Has(f, s, Text(code))
    ensures !AtEnd(f, s) && Skip(f, s) == s + |Text(code)|
    ensures AtEnd(f, s + |Text(code)|) ==> BackUp(f, s + |Text(code)|) == Some(s)
  {
    hide CloseBracket, OpenBracket;
    match code {
      case One(c) =>
        assert f[s] == f[s..s + 1][0] == c;
      case Group(negated, items) =>
        InnerIsPlain(negated, items);
        GroupSkips(f, s, Inner(negated, items));
    }
  }

  // ---------------------------------------------------------------- a side

  /** Where code i of a side starts, counted from the side's start; past the last code, where the
      side ends. */
  function Offset(codes: seq<Code>, i: nat): (o: nat)
  {
    |Texts(codes[..if i < |codes| then i else |codes|])|
  }

  lemma {:induction false} TextsSplit(codes: seq<Code>, i: nat)
    requires i < |codes|
    ensures Texts(codes) == Texts(codes[..i]) + Text(codes[i]) + Texts(codes[i + 1..])
    ensures Texts(codes[..i + 1]) == Texts(codes[..i]) + Text(codes[i])
  {
    hide Text;
    if i == 0 {
      assert codes[..1][1..] == [];
      assert Texts(codes[..1]) == Text(codes[0]) + Texts([]);
    } else {
      TextsSplit(codes[1..], i - 1);
      assert codes[1..][..i - 1] == codes[..i][1..] && codes[1..][..i] == codes[..i + 1][1..];
      assert codes[1..][i..] == codes[i + 1..];
    }
  }

  lemma SideHas(f: string, p: nat, codes: seq<Code>, i: nat)
    requires Side(f, p, codes) && i < |codes|
    ensures Has(f, p + Offset(codes, i), Text(codes[i]))
    ensures Offset(codes, i + 1) == Offset(codes, i) + |Text(codes[i])|
    ensures i + 1 == |codes| ==> AtEnd(f, p + Offset(codes, i + 1))
  {
    hide Texts, Text;
    var before, t, all := Texts(codes[..i]), Text(codes[i]), Texts(codes);
    TextsSplit(codes, i);
    assert codes[..|codes|] == codes;
    var o := p + |before|;
    SliceOfSlice(f, p, |all|, |before|, |t|);
    assert all[|before|..|before| + |t|] == t;
  }

  /** next_flow_code reads the code of port i of a side and moves on to the next one. */
  lemma NextReads(f: string, p: nat, codes: seq<Code>, i: nat, port: nat)
    requires Side(f, p, codes) && port < 128 && p + Offset(codes, i) <= |f|
    ensures var r := NextCode(f, p + Offset(codes, i), port);
            && r.Some? && r.value.p == p + Offset(codes, i + 1)
            && Proper(CodeOf(codes, i)) && Means(r.value.bits, CodeOf(codes, i), port)
  {
    hide Texts, Text, Means, CodeAt, Offset;
    var k := if i < |codes| then i else |codes| - 1;
    SideHas(f, p, codes, k);
    OffsetEnds(codes, i);
    CodeSkips(f, p + Offset(codes, k), codes[k]);
    CodeReads(f, p + Offset(codes, k), codes[k], port);
  }

  lemma OffsetEnds(codes: seq<Code>, i: nat)
    ensures i >= |codes| ==> Offset(codes, i) == Offset(codes, |codes|) == Offset(codes, i + 1)
  {
  }

  lemma OffsetInside(f: string, p: nat, codes: seq<Code>, i: nat)
    requires Side(f, p, codes)
    ensures p + Offset(codes, i) <= |f|
  {
    hide Texts, Text;
    if i < |codes| {
      TextsSplit(codes, i);
    } else {
      assert codes[..|codes|] == codes;
    }
  }

  /** Skipping n codes from code i on. */
  lemma {:induction false} SkipsCodes(f: string, p: nat, codes: seq<Code>, i: nat, n: nat)
    requires Side(f, p, codes) && p + Offset(codes, i) <= |f|
    ensures SkipCodes(f, p + Offset(codes, i), n) == p + Offset(codes, i + n)
    decreases n
  {
    hide Texts, Text, Offset, Side;
    if n > 0 {
      SkipsOne(f, p, codes, i);
      OffsetInside(f, p, codes, i + 1);
      SkipsCodes(f, p, codes, i + 1, n - 1);
    }
  }

  lemma SkipsOne(f: string, p: nat, codes: seq<Code>, i: nat)
    requires Side(f, p, codes) && p + Offset(codes, i) <= |f|
    ensures Skip(f, p + Offset(codes, i)) == p + Offset(codes, i + 1)
  {
    hide Texts, Text, Offset, CloseBracket;
    OffsetEnds(codes, i);
    if i < |codes| {
      SideHas(f, p, codes, i);
      CodeSkips(f, p + Offset(codes, i), codes[i]);
    } else {
      SideHas(f, p, codes, |codes| - 1);
    }
  }

  lemma IntersectMeans(bits: seq<bool>, code: Code, port: nat, bits': seq<bool>, code': Code, port': nat)
    requires |bits| == |bits'| == 256 && Proper(code) && Proper(code') && port < 128 && port' < 128
    requires Means(bits, code, port) && Means(bits', code', port')
    ensures Intersect(bits, bits') == Meet(code, port, code', port')
  {
    hide Admits;
  }

  lemma {:induction false} TravelsMeet(
    f: string, p: nat, codes: seq<Code>, bits: seq<bool>, code: Code, port: nat, i: nat, n: nat)
    requires Side(f, p, codes) && p + Offset(codes, i) <= |f| && i <= n <= 128
    requires |bits| == 256 && Proper(code) && port < 128 && Means(bits, code, port)
    ensures var r := Travels(f, p + Offset(codes, i), bits, i, n);
            && r.Some?
            && forall q :: i <= q < n ==> Proper(CodeOf(codes, q)) && r.value[q - i] == Meet(code, port, CodeOf(codes, q), q)
    decreases n - i
  {
    hide Texts, Offset, NextCode, Intersect, Means, Meet, CodeOf;
    if i < n {
      NextReads(f, p, codes, i, i);
      OffsetInside(f, p, codes, i + 1);
      TravelsMeet(f, p, codes, bits, code, port, i + 1, n);
      IntersectMeans(bits, code, port, NextCode(f, p + Offset(codes, i), i).value.bits, CodeOf(codes, i), i);
    }
  }

  // ---------------------------------------------------------------- the whole text

  lemma {:induction false} TextsHaveNoSlash(codes: seq<Code>)
    requires forall i :: 0 <= i < |codes| ==> Proper(codes[i])
    ensures '/' !in Texts(codes)
  {
    if codes != [] {
      TextsHaveNoSlash(codes[1..]);
      if codes[0].Group? {
        InnerIsPlain(codes[0].negated, codes[0].items);
      }
      assert '/' !in Text(codes[0]);
    }
  }

  lemma TextsAreNotEmpty(codes: seq<Code>)
    requires codes != []
    ensures Texts(codes) != [] && Offset(codes, 0) == 0
  {
  }

  lemma {:induction false} SlashIs(f: string, p: nat, q: nat)
    requires p <= q <= |f| && AtEnd(f, q) && forall i :: p <= i < q ==> f[i] != '/'
    ensures Slash(f, p) == q
    decreases q - p
  {
    if p < q {
      SlashIs(f, p + 1, q);
    }
  }

  /** Where the two sides of a well-formed text start. */
  lemma SidesAre(f: string, ins: seq<Code>, outs: seq<Code>)
    requires WellFormed(f, ins, outs)
    ensures Side(f, 0, ins) && Side(f, OutSide(f), outs) && !AtEnd(f, OutSide(f))
  {
    hide Texts, Slash;
    var t := Texts(ins);
    TextsHaveNoSlash(ins);
    assert forall i :: 0 <= i < |t| ==> f[i] == f[0..|t|][i];
    SlashIs(f, 0, |t|);
    assert Side(f, OutSide(f), outs);
    var t' := Texts(outs);
    TextsHaveNoSlash(outs);
    TextsAreNotEmpty(outs);
    assert f[OutSide(f)] == f[OutSide(f)..OutSide(f) + |t'|][0] == t'[0];
  }

  /** port_flow follows the rule: two ports are connected exactly when their codes have something in
      common. */
  lemma PortFlowIsRule(f: string, ins: seq<Code>, outs: seq<Code>, isOutput: bool, p: nat, n: nat, other: nat)
    requires WellFormed(f, ins, outs) && p < n <= 128 && other <= 128 && ins != [] && outs != []
    ensures var here, there := if isOutput then outs else ins, if isOutput then ins else outs;
            var r := PortFlow(f, false, isOutput, p, n, other);
            && r.Some? && Proper(CodeOf(here, p))
            && forall q :: 0 <= q < other ==>
                 Proper(CodeOf(there, q)) && r.value[q] == Meet(CodeOf(here, p), p, CodeOf(there, q), q)
  {
    hide Texts, Side, NextCode, Travels, Meet, CodeOf, Offset, SkipCodes, Means, AtEnd;
    SidesAre(f, ins, outs);
    var here, there := if isOutput then outs else ins, if isOutput then ins else outs;
    var h, t := if isOutput then OutSide(f) else 0, if isOutput then 0 else OutSide(f);
    TextsAreNotEmpty(here);
    TextsAreNotEmpty(there);
    SkipsCodes(f, h, here, 0, p);
    OffsetInside(f, h, here, p);
    NextReads(f, h, here, p, p);
    TravelsMeet(f, t, there, NextCode(f, h + Offset(here, p), p).value.bits, CodeOf(here, p), p, 0, other);
  }

  /** Packets travel from input p to output q as seen from p exactly if they do as seen from q. */
  lemma PortFlowIsSymmetric(f: string, ins: seq<Code>, outs: seq<Code>, complete: bool, p: nat, q: nat, nin: nat, nout: nat)
    requires WellFormed(f, ins, outs) && p < nin <= 128 && q < nout <= 128 && ins != [] && outs != []
    ensures var down, up := PortFlow(f, complete, false, p, nin, nout), PortFlow(f, complete, true, q, nout, nin);
            down.Some? && up.Some? && down.value[q] == up.value[p]
  {
    if !complete {
      hide PortFlow, WellFormed, Admits, CodeOf;
      PortFlowIsRule(f, ins, outs, false, p, nin, nout);
      PortFlowIsRule(f, ins, outs, true, q, nout, nin);
    }
  }

  /** The shortcut for COMPLETE_FLOW, "x/x", agrees with reading it. */
  lemma CompleteFlowAgrees(isOutput: bool, p: int, n: nat, other: nat)
    requires n <= 128 && other <= 128
    ensures PortFlow("x/x", true, isOutput, p, n, other) == PortFlow("x/x", false, isOutput, p, n, other)
  {
    if 0 <= p < n {
      var x := [One('x')];
      assert Texts(x) == "x" by {
        assert x[1..] == [];
      }
      var f := "x/x";
      assert f[0..1] == "x" && f[2..3] == "x";
      assert Side(f, 2, x) && WellFormed(f, x, x);
      PortFlowIsRule(f, x, x, isOutput, p, n, other);
      hide PortFlow, WellFormed, Side;
      var r := PortFlow(f, false, isOutput, p, n, other);
      forall q | 0 <= q < other
        ensures r.value[q]
      {
        XMeetsX(p, q);
      }
      assert r.value == seq(other, _ => true);
      CompleteIs(f, isOutput, p, n, other);
    }
  }

  lemma CompleteIs(f: string, isOutput: bool, p: nat, n: nat, other: nat)
    requires p < n <= 128 && other <= 128
    ensures PortFlow(f, true, isOutput, p, n, other) == Some(seq(other, _ => true))
  {
  }

  lemma XMeetsX(p: nat, q: nat)
    requires p < 128 && q < 128
    ensures Meet(One('x'), p, One('x'), q)
  {
    var b := 'x' as int;
    assert Admits(One('x'), p, b) && Admits(One('x'), q, b);
  }

  // ---------------------------------------------------------------- the documented flow codes

  lemma OneCode(code: Code)
    ensures Texts([code]) == Text(code)
  {
    assert [code][1..] == [];
    assert Texts([code]) == Text(code) + Texts([]);
  }

  lemma TwoCodes(a: Code, b: Code)
    ensures Texts([a, b]) == Text(a) + Text(b)
  {
    assert [a, b][1..] == [b];
    OneCode(b);
  }

  lemma WellFormedIs(f: string, ins: seq<Code>, outs: seq<Code>)
    requires ins != [] && outs != [] && f == Texts(ins) + "/" + Texts(outs)
    requires (forall i :: 0 <= i < |ins| ==> Proper(ins[i])) && (forall i :: 0 <= i < |outs| ==> Proper(outs[i]))
    ensures WellFormed(f, ins, outs)
  {
    hide Texts, Proper;
    var s, t := Texts(ins), Texts(outs);
    assert f[0..|s|] == s && f[|s|] == '/' && f[|s| + 1..|s| + 1 + |t|] == t;
  }

  /** "#/#": to the port of the same number, and "#/[^#]": to all others. */
  lemma SameNumber(p: nat, n: nat, q: nat, other: nat)
    requires p < n <= 128 && q < other <= 128
    ensures var r := PortFlow("#/#", false, false, p, n, other); r.Some? && (r.value[q] <==> p == q)
    ensures var r := PortFlow("#/[^#]", false, false, p, n, other); r.Some? && (r.value[q] <==> p != q)
  {
    hide PortFlow, WellFormed;
    var one, rest := One('#'), Group(true, "#");
    OneCode(one);
    OneCode(rest);
    assert "#/#" == "#" + "/" + "#" && "#/[^#]" == "#" + "/" + "[^#]" && Text(rest) == "[^#]";
    WellFormedIs("#/#", [one], [one]);
    WellFormedIs("#/[^#]", [one], [rest]);
    PortFlowIsRule("#/#", [one], [one], false, p, n, other);
    PortFlowIsRule("#/[^#]", [one], [rest], false, p, n, other);
    HashMeets(p, q);
  }

  lemma HashMeets(p: nat, q: nat)
    requires p < 128 && q < 128
    ensures Meet(One('#'), p, One('#'), q) <==> p == q
    ensures Meet(One('#'), p, Group(true, "#"), q) <==> p != q
  {
    var b := p + 128;
    assert Admits(One('#'), p, b);
    assert Sets("#", q, b) <==> b == q + 128 by { assert "#"[0] == '#'; }
    assert Admits(Group(true, "#"), q, b) <==> p != q;
    assert Admits(One('#'), q, b) <==> p == q;
  }

  /** "x/y": nowhere, and "xy/x": from input 0 to every output and from no other input anywhere. */
  lemma FirstInputOnly(p: nat, n: nat, q: nat, other: nat)
    requires p < n <= 128 && q < other <= 128
    ensures var r := PortFlow("x/y", false, false, p, n, other); r.Some? && !r.value[q]
    ensures var r := PortFlow("xy/x", false, false, p, n, other); r.Some? && (r.value[q] <==> p == 0)
  {
    hide PortFlow, WellFormed, Meet;
    var x, y := One('x'), One('y');
    OneCode(x);
    OneCode(y);
    TwoCodes(x, y);
    assert "x/y" == "x" + "/" + "y" && "xy/x" == "x" + "y" + "/" + "x";
    WellFormedIs("x/y", [x], [y]);
    WellFormedIs("xy/x", [x, y], [x]);
    PortFlowIsRule("x/y", [x], [y], false, p, n, other);
    PortFlowIsRule("xy/x", [x, y], [x], false, p, n, other);
    LettersMeet('x', p, 'x', q);
    LettersMeet('x', p, 'y', q);
    LettersMeet('y', p, 'x', q);
  }

  lemma LettersMeet(c: char, p: nat, d: char, q: nat)
    requires IsLetter(c) && IsLetter(d) && p < 128 && q < 128
    ensures Meet(One(c), p, One(d), q) <==> c == d
  {
    var b := c as int;
    assert Admits(One(c), p, b);
    assert Admits(One(d), q, b) <==> c == d;
  }

  /** "xy/[xy]x": from input 0 to every output, and from every input to output 0. */
  lemma Bypass(p: nat, n: nat, q: nat, other: nat)
    requires p < n <= 128 && q < other <= 128
    ensures var r := PortFlow("xy/[xy]x", false, false, p, n, other); r.Some? && (r.value[q] <==> p == 0 || q == 0)
  {
    hide PortFlow, WellFormed, Meet;
    var x, y, both := One('x'), One('y'), Group(false, "xy");
    TwoCodes(x, y);
    TwoCodes(both, x);
    assert Text(both) == "[xy]" && "xy/[xy]x" == "x" + "y" + "/" + ("[xy]" + "x");
    WellFormedIs("xy/[xy]x", [x, y], [both, x]);
    PortFlowIsRule("xy/[xy]x", [x, y], [both, x], false, p, n, other);
    LettersMeet('x', p, 'x', q);
    LettersMeet('y', p, 'x', q);
    BothMeet(p, q);
  }

  lemma BothMeet(p: nat, q: nat)
    requires p < 128 && q < 128
    ensures Meet(One('x'), p, Group(false, "xy"), q) && Meet(One('y'), p, Group(false, "xy"), q)
  {
    var x, y := 'x' as int, 'y' as int;
    assert "xy"[0] == 'x' && "xy"[1] == 'y';
    assert Sets("xy", q, x) && Sets("xy", q, y);
    assert Admits(One('x'), p, x) && Admits(One('y'), p, y);
    assert Admits(Group(false, "xy"), q, x) && Admits(Group(false, "xy"), q, y);
  }

  // ---------------------------------------------------------------- reading in front of the text

  /** Where skipping codes from p ends. */
  function End(f: string, p: nat): (e: nat)
    requires p <= |f|
    ensures p <= e <= |f| && AtEnd(f, e)
    decreases |f| - p
  {
    if AtEnd(f, p) then p else End(f, Skip(f, p))
  }

  /** How many codes there are from p on. */
  function Count(f: string, p: nat): (n: nat)
    requires p <= |f|
    decreases |f| - p
  {
    if AtEnd(f, p) then 0 else 1 + Count(f, Skip(f, p))
  }

  /** There is no last code to go back to from e: nothing is in front of it, or a ']' that no '[' is
      in front of. */
  predicate Headless(f: string, e: nat)
    requires e <= |f|
  {
    e == 0 || (f[e - 1] == ']' && '[' !in f[..e - 1])
  }

  lemma {:induction false} NoOpenBracket(f: string, p: int)
    requires -1 <= p < |f|
    ensures OpenBracket(f, p) == None <==> '[' !in f[..p + 1]
    decreases p + 1
  {
    if p >= 0 {
      NoOpenBracket(f, p - 1);
      assert f[..p + 1] == f[..p] + [f[p]];
    }
  }

  lemma BackUpFails(f: string, p: nat)
    requires p <= |f|
    ensures BackUp(f, p) == None <==> AtEnd(f, p) && Headless(f, p)
  {
    hide OpenBracket;
    if p > 0 {
      NoOpenBracket(f, p - 2);
    }
  }

  lemma {:induction false} ItemsClose(f: string, p: nat, port: nat, bits: seq<bool>)
    requires p <= |f| && port < 128 && |bits| == 256
    ensures var q := Items(f, p, port, bits).0; CloseBracket(f, p) == if q == |f| then q else q + 1
    decreases |f| - p
  {
    hide ItemBit;
    if p != |f| && f[p] != ']' {
      ItemsClose(f, p + 1, port, if IsItem(f[p]) then bits[ItemBit(f[p], port) := true] else bits);
    }
  }

  /** Where next_flow_code leaves off behind a code. */
  lemma CodeAtEnds(f: string, s: nat, port: nat)
    requires s < |f| && port < 128
    ensures CodeAt(f, s, port).p == if f[s] == '[' then CloseBracket(f, s + 1) else s + 1
  {
    hide Items, ItemBit;
    if f[s] == '[' {
      var negated := s + 1 < |f| && f[s + 1] == '^';
      ItemsClose(f, if negated then s + 2 else s + 1, port, NoBits());
    }
  }

  lemma BracketIsLong(f: string, p: nat)
    requires p <= |f|
    ensures CloseBracket(f, p) > p || p == |f|
  {
  }

  /** With something to go back to from the end there always will be. */
  lemma NextKeepsHead(f: string, p: nat, port: nat)
    requires p <= |f| && port < 128 && !Headless(f, End(f, p))
    ensures var r := NextCode(f, p, port); r.Some? && !Headless(f, End(f, r.value.p))
  {
    hide End, CodeAt, CloseBracket, OpenBracket;
    BackUpFails(f, p);
    EndUnfolds(f, p);
    var s := BackUp(f, p).value;
    CodeAtEnds(f, s, port);
    if AtEnd(f, p) {
      if f[s] == '[' {
        BracketIsLong(f, s + 1);
        BehindBracket(f, s, End(f, CodeAt(f, s, port).p));
      }
      EndUnfolds(f, s + 1);
    }
  }

  lemma BehindBracket(f: string, s: nat, e: nat)
    requires s < e <= |f| && f[s] == '['
    ensures !Headless(f, e)
  {
    assert e > s + 1 ==> f[..e - 1][s] == '[';
  }

  lemma EndUnfolds(f: string, p: nat)
    requires p <= |f|
    ensures End(f, p) == if AtEnd(f, p) then p else End(f, Skip(f, p))
  {
  }

  lemma {:induction false} TravelsInside(f: string, p: nat, bits: seq<bool>, i: nat, n: nat)
    requires p <= |f| && |bits| == 256 && i <= n <= 128 && !Headless(f, End(f, p))
    ensures Travels(f, p, bits, i, n).Some?
    decreases n - i
  {
    hide NextCode, Intersect, End, Headless;
    if i < n {
      NextKeepsHead(f, p, i);
      TravelsInside(f, NextCode(f, p, i).value.p, bits, i + 1, n);
    }
  }

  /** In front of its end next_flow_code moves like skip_flow_code. */
  lemma NextSkips(f: string, p: nat, port: nat)
    requires p <= |f| && port < 128 && !AtEnd(f, p)
    ensures var r := NextCode(f, p, port); r.Some? && r.value.p == Skip(f, p)
  {
    hide CodeAt, CloseBracket;
    CodeAtEnds(f, p, port);
  }

  lemma {:induction false} TravelsFails(f: string, p: nat, bits: seq<bool>, i: nat, n: nat)
    requires p <= |f| && |bits| == 256 && i <= n <= 128
    ensures Travels(f, p, bits, i, n) == None <==> Headless(f, End(f, p)) && n - i > Count(f, p)
    decreases n - i
  {
    hide Intersect, Headless, Skip;
    if !Headless(f, End(f, p)) {
      TravelsInside(f, p, bits, i, n);
    } else if i < n {
      BackUpFails(f, p);
      if !AtEnd(f, p) {
        NextSkips(f, p, i);
        hide NextCode;
        TravelsFails(f, Skip(f, p), bits, i + 1, n);
      }
    }
  }

  lemma {:induction false} SkipsToEnd(f: string, p: nat, n: nat)
    requires p <= |f|
    ensures End(f, SkipCodes(f, p, n)) == End(f, p)
    ensures AtEnd(f, SkipCodes(f, p, n)) <==> n >= Count(f, p)
    decreases n
  {
    hide CloseBracket;
    if n > 0 {
      SkipsToEnd(f, Skip(f, p), n - 1);
    }
  }

  /** port_flow reads in front of the text if and only if it needs more codes than a side has, and
      there is no last code to go back to at the end of that side. */
  lemma ReadsInFront(f: string, complete: bool, isOutput: bool, p: int, n: nat, other: nat)
    requires n <= 128 && other <= 128
    ensures var here, there := if isOutput then OutSide(f) else 0, if isOutput then 0 else OutSide(f);
            PortFlow(f, complete, isOutput, p, n, other) == None
            <==> && 0 <= p < n && !complete && !AtEnd(f, OutSide(f))
                 && (|| (p >= Count(f, here) && Headless(f, End(f, here)))
                     || (other > Count(f, there) && Headless(f, End(f, there))))
  {
    hide SkipCodes, Travels, End, Count, Headless, CodeAt, BackUp, OutSide;
    if 0 <= p < n {
      var here, there := if isOutput then OutSide(f) else 0, if isOutput then 0 else OutSide(f);
      SkipsToEnd(f, here, p);
      var q := SkipCodes(f, here, p);
      BackUpFails(f, q);
      EndUnfolds(f, q);
      var next := NextCode(f, q, p);
      if next.Some? {
        TravelsFails(f, there, next.value.bits, 0, other);
      }
    }
  }

  /** Both sides of "x]/x" have codes, and there is nothing at all in front of the slash of "/x". */
  lemma ReadsInFrontAt(p: nat, n: nat, other: nat)
    requires p < n <= 128 && other <= 128
    ensures PortFlow("x]/x", false, false, 2, 3, 1) == None
    ensures PortFlow("/x", false, false, p, n, other) == None
  {
    hide PortFlow;
    var f, g := "x]/x", "/x";
    SlashIs(f, 0, 2);
    SlashIs(g, 0, 0);
    assert '[' !in f[..1];
    assert End(f, 0) == 2 && Count(f, 0) == 2 by {
      assert Skip(f, 0) == 1 && Skip(f, 1) == 2;
      assert End(f, 2) == 2 && Count(f, 2) == 0;
    }
    ReadsInFront(f, false, false, 2, 3, 1);
    ReadsInFront(g, false, false, p, n, other);
  }

  // ---------------------------------------------------------------- the loops

  method SkipFlowCode(f: string, p: nat) returns (q: nat)
    requires p <= |f|
    ensures q == Skip(f, p)
  {
    q := p;
    if !AtEnd(f, p) {
      if f[p] == '[' {
        q := p + 1;
        while q != |f| && f[q] != ']'
          invariant p < q <= |f| && CloseBracket(f, p + 1) == CloseBracket(f, q)
        {
          q := q + 1;
        }
        if q != |f| {
          q := q + 1;
        }
      } else {
        q := p + 1;
      }
    }
  }

  /** Back up to the last code character. */
  method BackUpTo(f: string, p: nat) returns (outside: bool, q: nat)
    requires p <= |f|
    ensures BackUp(f, p) == if outside then None else Some(q)
  {
    outside, q := false, p;
    if AtEnd(f, p) {
      if p == 0 {
        outside := true;
      } else if f[p - 1] == ']' {
        var k: int := p - 2;
        while k >= 0 && f[k] != '['
          invariant -1 <= k <= p - 2
          invariant OpenBracket(f, p - 2) == OpenBracket(f, k)
        {
          k := k - 1;
        }
        if k < 0 {
          outside := true;
        } else {
          q := k;
        }
      } else {
        q := p - 1;
      }
    }
  }

  /** next_flow_code; code is the Bitvector it fills. */
  method NextFlowCode(f: string, p: nat, port: nat, code: array<bool>) returns (outside: bool, q: nat, valid: bool)
    requires p <= |f| && port < 128 && code.Length == 256
    modifies code
    ensures NextCode(f, p, port) == if outside then None else Some(Next(q, code[..], valid))
  {
    outside, q := BackUpTo(f, p);
    valid := true;
    if outside {
      return;
    }
    forall i | 0 <= i < 256 {
      code[i] := false;
    }
    assert code[..] == NoBits();
    if f[q] == '[' {
      ghost var s := q;
      q, valid := BracketBits(f, q, port, code);
      assert Next(q, code[..], valid) == CodeAt(f, s, port);
    } else if IsItem(f[q]) {
      code[ItemBit(f[q], port)] := true;
      assert code[..] == NoBits()[ItemBit(f[q], port) := true];
      q := q + 1;
    } else {
      valid := false;
      q := q + 1;
    }
  }

  method BracketBits(f: string, s: nat, port: nat, code: array<bool>) returns (q: nat, valid: bool)
    requires s < |f| && f[s] == '[' && port < 128 && code.Length == 256 && code[..] == NoBits()
    modifies code
    ensures Next(q, code[..], valid) == CodeAt(f, s, port)
  {
    hide ItemBit;
    q, valid := s, true;
    var negated := false;
    if s + 1 < |f| && f[s + 1] == '^' {
      negated := true;
      q := q + 1;
    }
    q := q + 1;
    ghost var all := Items(f, q, port, NoBits());
    ghost var bits := NoBits();
    while q != |f| && f[q] != ']'
      invariant s < q <= |f| && |bits| == 256 && bits == code[..]
      invariant var r := Items(f, q, port, bits); all == (r.0, r.1, valid && r.2)
      decreases |f| - q
    {
      if IsItem(f[q]) {
        code[ItemBit(f[q], port)] := true;
        bits := bits[ItemBit(f[q], port) := true];
      } else {
        valid := false;
      }
      q := q + 1;
    }
    if negated {
      forall i | 0 <= i < 256 {
        code[i] := !code[i];
      }
      assert code[..] == Flipped(bits);
    }
    if q == |f| {
      valid := false;
    } else {
      q := q + 1;
    }
  }

  method StrChr(f: string) returns (q: nat)
    ensures q == Slash(f, 0)
  {
    q := 0;
    while q != |f| && f[q] != '/'
      invariant q <= |f| && Slash(f, 0) == Slash(f, q)
    {
      q := q + 1;
    }
  }

  method NonzeroIntersection(a: array<bool>, b: array<bool>) returns (r: bool)
    requires a.Length == b.Length
    ensures r == Intersect(a[..], b[..])
  {
    var i := 0;
    while i < a.Length
      invariant 0 <= i <= a.Length && forall k :: 0 <= k < i ==> !(a[k] && b[k])
    {
      if a[i] && b[i] {
        assert a[..][i] && b[..][i];
        return true;
      }
      i := i + 1;
    }
    return false;
  }

  lemma TravelsStep(f: string, p: nat, bits: seq<bool>, i: nat, n: nat)
    requires p <= |f| && |bits| == 256 && i < n <= 128
    ensures Travels(f, p, bits, i, n)
            == match NextCode(f, p, i)
               case None => None
               case Some(next) =>
                 match Travels(f, next.p, bits, i + 1, n)
                 case None => None
                 case Some(rest) => Some([Intersect(bits, next.bits)] + rest)
  {
    hide NextCode, Intersect;
  }

  lemma TravelsEnd(f: string, p: nat, bits: seq<bool>, n: nat)
    requires p <= |f| && |bits| == 256 && n <= 128
    ensures Travels(f, p, bits, n, n) == Some([])
  {
  }

  /** The last loop of port_flow. */
  method FillTravels(f: string, there: nat, inCode: array<bool>, travels: array<bool>) returns (outside: bool)
    requires there <= |f| && inCode.Length == 256 && travels.Length <= 128 && travels != inCode
    requires forall i :: 0 <= i < travels.Length ==> !travels[i]
    modifies travels
    ensures Travels(f, there, old(inCode[..]), 0, travels.Length) == if outside then None else Some(travels[..])
  {
    hide NextCode, Intersect, Travels;
    ghost var bits := inCode[..];
    var n := travels.Length;
    var fOut: nat := there;
    var outCode := new bool[256];
    ghost var all := Travels(f, there, bits, 0, n);
    ghost var done: seq<bool> := [];
    var i := 0;
    assert all.Some? ==> [] + all.value == all.value;
    while i < n
      invariant 0 <= i <= n && fOut <= |f| && inCode[..] == bits && done == travels[..i]
      invariant forall k :: i <= k < n ==> !travels[k]
      invariant var rest := Travels(f, fOut, bits, i, n);
                all == if rest.None? then None else Some(done + rest.value)
    {
      TravelsStep(f, fOut, bits, i, n);
      var o, q, _ := NextFlowCode(f, fOut, i, outCode);
      if o {
        return true;
      }
      fOut := q;
      var meet := NonzeroIntersection(inCode, outCode);
      if meet {
        travels[i] := true;
      }
      ghost var rest := Travels(f, fOut, bits, i + 1, n);
      assert rest.Some? ==> done + ([meet] + rest.value) == done + [meet] + rest.value;
      done := done + [meet];
      i := i + 1;
    }
    TravelsEnd(f, fOut, bits, n);
    assert done + [] == done == travels[..];
    return false;
  }

  method SkipAll(f: string, p: nat, n: nat) returns (q: nat)
    requires p <= |f|
    ensures q == SkipCodes(f, p, n)
  {
    hide Skip;
    q := p;
    for i := 0 to n
      invariant q <= |f| && SkipCodes(f, p, n) == SkipCodes(f, q, n - i)
    {
      q := SkipFlowCode(f, q);
    }
  }

  method ComputePortFlow(f: string, complete: bool, isOutput: bool, p: int, n: nat, other: nat)
    returns (outside: bool, travels: array<bool>)
    requires n <= 128 && other <= 128
    ensures fresh(travels)
    ensures PortFlow(f, complete, isOutput, p, n, other) == if outside then None else Some(travels[..])
  {
    hide NextCode, Travels, SkipCodes, Skip, Slash;
    outside := false;
    if p < 0 || p >= n {
      travels := new bool[other](_ => false);
      assert travels[..] == seq(other, _ => false);
      return;
    } else if complete {
      travels := new bool[other](_ => true);
      assert travels[..] == seq(other, _ => true);
      return;
    }
    travels := new bool[other](_ => false);
    var fIn: nat := 0;
    var slash := StrChr(f);
    var fOut: nat := if slash < |f| then slash + 1 else fIn;
    if AtEnd(f, fOut) {
      assert travels[..] == seq(other, _ => false);
      return;
    }
    if isOutput {
      fIn, fOut := fOut, fIn;
    }
    fIn := SkipAll(f, fIn, p);
    var inCode := new bool[256];
    var q, v;
    outside, q, v := NextFlowCode(f, fIn, p, inCode);
    if !outside {
      assert fOut <= |f|;
      assert travels != inCode;
      assert forall i :: 0 <= i < travels.Length ==> !travels[i];
      outside := FillTravels(f, fOut, inCode, travels);
    }
  }
}
