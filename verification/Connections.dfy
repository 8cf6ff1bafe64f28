/** The meaning of Click's connection statements (click/lib/lexer.cc): comma-separated elements
    with port lists on both sides of "->" or "=>", and lists that may be left open to expand. */
module Connections {

  /** One element of a comma-separated list, with its bracketed input and output ports. A final -1
      leaves the list open. */
  datatype Group = Group(elem: int, ins: seq<int>, outs: seq<int>)
  {
    function Ports(isOut: bool): (ps: seq<int>)
    {
      if isOut then outs else ins
    }
  }

  /** Port lists as the port parser builds them: an open list names at least one port first. */
  ghost predicate PortList(ps: seq<int>)
  {
    && (forall i :: 0 <= i < |ps| - 1 ==> ps[i] >= 0)
    && (ps != [] ==> ps[|ps| - 1] >= -1)
    && (|ps| == 1 ==> ps[0] >= 0)
  }

  ghost predicate PortLists(gs: seq<Group>, isOut: bool)
  {
    forall i :: 0 <= i < |gs| ==> PortList(gs[i].Ports(isOut))
  }

  datatype Endpoint = Endpoint(elem: int, port: int)

  datatype Connection = Connection(from: Endpoint, to: Endpoint)

  predicate IsOpen(ps: seq<int>)
  {
    |ps| > 1 && ps[|ps| - 1] == -1
  }

  /** The ports written down; an absent list stands for port 0. */
  function Named(ps: seq<int>): (named: seq<int>)
    ensures named != []
  {
    if ps == [] then [0] else if IsOpen(ps) then ps[..|ps| - 1] else ps
  }

  function MinPorts(gs: seq<Group>, isOut: bool): (n: nat)
  {
    if gs == [] then 0 else MinPorts(gs[..|gs| - 1], isOut) + |Named(gs[|gs| - 1].Ports(isOut))|
  }

  function OpenLists(gs: seq<Group>, isOut: bool): (n: nat)
  {
    if gs == [] then 0
    else OpenLists(gs[..|gs| - 1], isOut) + if IsOpen(gs[|gs| - 1].Ports(isOut)) then 1 else 0
  }

  lemma PortsMore(gs: seq<Group>, isOut: bool, i: nat)
    requires i < |gs|
    ensures var ps := gs[i].Ports(isOut);
            && MinPorts(gs[..i + 1], isOut) == MinPorts(gs[..i], isOut) + |Named(ps)|
            && OpenLists(gs[..i + 1], isOut) == OpenLists(gs[..i], isOut) + if IsOpen(ps) then 1 else 0
  {
    assert gs[..i + 1][..i] == gs[..i] && gs[..i + 1][i] == gs[i];
  }

  lemma NoPorts(isOut: bool)
    ensures MinPorts([], isOut) == OpenLists([], isOut) == 0
  {
  }

  /** yconnection_analyze_ports. */
  method AnalyzePorts(gs: seq<Group>, isOut: bool) returns (minPorts: nat, expandable: nat)
    requires PortLists(gs, isOut)
    ensures minPorts == MinPorts(gs, isOut) && expandable == OpenLists(gs, isOut)
  {
    hide MinPorts, OpenLists;
    minPorts, expandable := 0, 0;
    var i := 0;
    assert gs[..0] == [];
    NoPorts(isOut);
    while i < |gs|
      invariant 0 <= i <= |gs|
      invariant minPorts == MinPorts(gs[..i], isOut) && expandable == OpenLists(gs[..i], isOut)
    {
      var ps := gs[i].Ports(isOut);
      var n := |ps|;
      if n <= 1 {
        minPorts := minPorts + 1;
      } else if ps[n - 1] == -1 {
        minPorts := minPorts + (n - 1);
        expandable := expandable + 1;
      } else {
        minPorts := minPorts + n;
      }
      PortsMore(gs, isOut, i);
      i := i + 1;
    }
    assert gs[..i] == gs;
  }

  // ---------------------------------------------------------------- what a side stands for

  /** The port at position i of a list: a named one, or the consecutive ports behind the last. */
  function PortAt(ps: seq<int>, i: nat): (p: int)
  {
    var named := Named(ps);
    if i < |named| then named[i] else named[|named| - 1] + (i - |named| + 1)
  }

  /** Whether a list takes extra ports: it is open, or absent where that means open. */
  predicate Takes(ps: seq<int>, absentIsOpen: bool)
  {
    IsOpen(ps) || (ps == [] && absentIsOpen)
  }

  /** The endpoints of group g from position i on, with extra more ports if the list takes them. */
  function GroupRest(g: Group, isOut: bool, i: nat, extra: nat, absentIsOpen: bool): (es: seq<Endpoint>)
    ensures es != [] && es[0] == Endpoint(g.elem, PortAt(g.Ports(isOut), i))
  {
    var ps := g.Ports(isOut);
    var n := (if i < |Named(ps)| then |Named(ps)| - i else 1) + if Takes(ps, absentIsOpen) then extra else 0;
    seq(n, j requires 0 <= j => Endpoint(g.elem, PortAt(ps, i + j)))
  }

  /** All endpoints of one side of a connection: every group's named ports, and the extra ports in
      the first group that takes them. */
  function Flat(gs: seq<Group>, isOut: bool, extra: nat, absentIsOpen: bool): (es: seq<Endpoint>)
  {
    if gs == [] then []
    else
      GroupRest(gs[0], isOut, 0, extra, absentIsOpen)
      + Flat(gs[1..], isOut, if Takes(gs[0].Ports(isOut), absentIsOpen) then 0 else extra, absentIsOpen)
  }

  // ---------------------------------------------------------------- cursors

  /** A position in one side: group, position in its port list, and extra ports left. */
  datatype Cursor = Cursor(g: nat, i: nat, extra: int)

  function NonNegative(x: int): (n: nat)
  {
    if x > 0 then x else 0
  }

  /** What a cursor has still before it, its own endpoint first. */
  function Rest(gs: seq<Group>, isOut: bool, c: Cursor, absentIsOpen: bool): (es: seq<Endpoint>)
    requires c.g <= |gs|
  {
    if c.g == |gs| then []
    else
      var extra := NonNegative(c.extra);
      GroupRest(gs[c.g], isOut, c.i, extra, absentIsOpen)
      + Flat(gs[c.g + 1..], isOut,
             if Takes(gs[c.g].Ports(isOut), absentIsOpen) then 0 else extra, absentIsOpen)
  }

  /** The stepping code at the end of yconnection_connect_all's loop. */
  function Advance(gs: seq<Group>, isOut: bool, c: Cursor, minPorts: nat): (c': Cursor)
    requires c.g < |gs|
  {
    var ps := gs[c.g].Ports(isOut);
    var np, i := |ps|, c.i + 1;
    if i < np && ps[i] >= 0 then Cursor(c.g, i, c.extra)
    else if np != 0 && ps[np - 1] == -1 && c.extra > 0 then Cursor(c.g, i, c.extra - 1)
    else if np == 0 && minPorts == 1 && c.extra > 0 then Cursor(c.g, i, c.extra - 1)
    else Cursor(c.g + 1, 0, c.extra)
  }

  /** The cursor stands on a named port, or past them in a list that takes extra ports. */
  ghost predicate OnPort(gs: seq<Group>, isOut: bool, c: Cursor, absentIsOpen: bool)
  {
    && c.g <= |gs|
    && (c.g < |gs| ==> var ps := gs[c.g].Ports(isOut);
                       c.i < |Named(ps)| || Takes(ps, absentIsOpen))
  }

  lemma GroupRestTail(g: Group, isOut: bool, i: nat, extra: nat, absentIsOpen: bool)
    requires i + 1 < |Named(g.Ports(isOut))|
    ensures GroupRest(g, isOut, i, extra, absentIsOpen) != []
    ensures GroupRest(g, isOut, i, extra, absentIsOpen)[1..] == GroupRest(g, isOut, i + 1, extra, absentIsOpen)
  {
  }

  lemma GroupRestExtra(g: Group, isOut: bool, i: nat, extra: nat, absentIsOpen: bool)
    requires i + 1 >= |Named(g.Ports(isOut))| && Takes(g.Ports(isOut), absentIsOpen) && extra > 0
    ensures GroupRest(g, isOut, i, extra, absentIsOpen) != []
    ensures GroupRest(g, isOut, i, extra, absentIsOpen)[1..] == GroupRest(g, isOut, i + 1, extra - 1, absentIsOpen)
  {
  }

  lemma GroupRestLast(g: Group, isOut: bool, i: nat, extra: nat, absentIsOpen: bool)
    requires i + 1 >= |Named(g.Ports(isOut))|
    requires !Takes(g.Ports(isOut), absentIsOpen) || extra == 0
    ensures |GroupRest(g, isOut, i, extra, absentIsOpen)| == 1
  {
  }

  lemma RestAtGroup(gs: seq<Group>, isOut: bool, g: nat, extra: int, absentIsOpen: bool)
    requires g <= |gs|
    ensures Rest(gs, isOut, Cursor(g, 0, extra), absentIsOpen)
            == Flat(gs[g..], isOut, NonNegative(extra), absentIsOpen)
  {
    if g < |gs| {
      assert gs[g..][1..] == gs[g + 1..];
    }
  }

  /** The three ways a step can go, in terms of what the list names and takes. */
  lemma AdvanceCases(gs: seq<Group>, isOut: bool, c: Cursor, minPorts: nat)
    requires PortLists(gs, isOut) && c.g < |gs|
    ensures var ps := gs[c.g].Ports(isOut);
            Advance(gs, isOut, c, minPorts)
            == if c.i + 1 < |Named(ps)| then Cursor(c.g, c.i + 1, c.extra)
               else if Takes(ps, minPorts == 1) && c.extra > 0 then Cursor(c.g, c.i + 1, c.extra - 1)
               else Cursor(c.g + 1, 0, c.extra)
  {
    assert PortList(gs[c.g].Ports(isOut));
  }

  lemma DropFirst(a: seq<Endpoint>, b: seq<Endpoint>)
    requires a != []
    ensures (a + b)[1..] == a[1..] + b
  {
  }

  /** Each step moves on by exactly one endpoint. */
  lemma AdvanceIsTail(gs: seq<Group>, isOut: bool, c: Cursor, minPorts: nat)
    requires PortLists(gs, isOut) && OnPort(gs, isOut, c, minPorts == 1) && c.g < |gs|
    ensures var c' := Advance(gs, isOut, c, minPorts);
            && OnPort(gs, isOut, c', minPorts == 1)
            && Rest(gs, isOut, c', minPorts == 1) == Rest(gs, isOut, c, minPorts == 1)[1..]
  {
    hide GroupRest, Flat, Advance, PortList;
    var open, g, c' := minPorts == 1, gs[c.g], Advance(gs, isOut, c, minPorts);
    var ps, extra := g.Ports(isOut), NonNegative(c.extra);
    var now, later := GroupRest(g, isOut, c.i, extra, open), Flat(gs[c.g + 1..], isOut, if Takes(ps, open) then 0 else extra, open);
    AdvanceCases(gs, isOut, c, minPorts);
    if c.i + 1 < |Named(ps)| {
      GroupRestTail(g, isOut, c.i, extra, open);
      DropFirst(now, later);
    } else if Takes(ps, open) && c.extra > 0 {
      GroupRestExtra(g, isOut, c.i, extra, open);
      DropFirst(now, later);
    } else {
      GroupRestLast(g, isOut, c.i, extra, open);
      DropFirst(now, later);
      RestAtGroup(gs, isOut, c.g + 1, c.extra, open);
    }
  }

  // ---------------------------------------------------------------- the decision

  datatype Error = TwoOpenLists | ManyToMany | Mismatch

  /** How a connection statement is carried out: which sides step, how many extra ports each side
      gets, and what was complained about. Index 0 is the input side, 1 the output side. */
  datatype Plan = Plan(step0: bool, step1: bool, extra0: int, extra1: int, errors: set<Error>)

  /** The first half of yconnection_connect_all. */
  function Decide(outputs: seq<Group>, inputs: seq<Group>, isDouble: bool): (p: Plan)
  {
    var m0, m1 := MinPorts(inputs, false), MinPorts(outputs, true);
    var n0, n1 := OpenLists(inputs, false), OpenLists(outputs, true);
    var tooMany := n0 + n1 > 1;
    var absent0 := isDouble && m0 == 1 && m1 > 1 && inputs != [] && inputs[0].ins == [];
    var absent1 := isDouble && m1 == 1 && m0 > 1 && outputs != [] && outputs[0].outs == [];
    var open0 := absent0 || (n0 > 0 && !(tooMany && m0 >= m1));
    var open1 := absent1 || (n1 > 0 && !(tooMany && m0 < m1));
    var step0, step1 := m0 > 1 || open0, m1 > 1 || open1;
    var mismatch := (!open0 && !open1 && m0 != m1) || (!open0 && m0 < m1) || (!open1 && m1 < m0);
    Plan(step0 || !step1, step1,
         if open0 then m1 - m0 else 0, if open1 then m0 - m1 else 0,
         (if tooMany then {TwoOpenLists} else {})
         + (if step0 && step1 && !isDouble then {ManyToMany} else {})
         + (if step0 && step1 && mismatch then {Mismatch} else {}))
  }

  /** The endpoints the input side, or the output side, stands for. */
  function Inputs(outputs: seq<Group>, inputs: seq<Group>, isDouble: bool): (es: seq<Endpoint>)
  {
    Flat(inputs, false, NonNegative(Decide(outputs, inputs, isDouble).extra0), MinPorts(inputs, false) == 1)
  }

  function Outputs(outputs: seq<Group>, inputs: seq<Group>, isDouble: bool): (es: seq<Endpoint>)
  {
    Flat(outputs, true, NonNegative(Decide(outputs, inputs, isDouble).extra1), MinPorts(outputs, true) == 1)
  }

  /** Some list of the side takes extra ports. */
  ghost predicate SomeTakes(gs: seq<Group>, isOut: bool, absentIsOpen: bool)
  {
    exists i :: 0 <= i < |gs| && Takes(gs[i].Ports(isOut), absentIsOpen)
  }

  lemma {:induction false} MinPortsCons(gs: seq<Group>, isOut: bool)
    requires gs != []
    ensures MinPorts(gs, isOut) == |Named(gs[0].Ports(isOut))| + MinPorts(gs[1..], isOut)
    ensures OpenLists(gs, isOut) == OpenLists(gs[1..], isOut) + if IsOpen(gs[0].Ports(isOut)) then 1 else 0
  {
    hide Named, IsOpen;
    if |gs| > 1 {
      MinPortsCons(gs[..|gs| - 1], isOut);
      assert gs[..|gs| - 1][1..] == gs[1..][..|gs| - 2];
    }
  }

  lemma {:induction false} FlatLength(gs: seq<Group>, isOut: bool, extra: nat, absentIsOpen: bool)
    ensures |Flat(gs, isOut, extra, absentIsOpen)|
            == MinPorts(gs, isOut) + if SomeTakes(gs, isOut, absentIsOpen) then extra else 0
  {
    if gs != [] {
      MinPortsCons(gs, isOut);
      var t := Takes(gs[0].Ports(isOut), absentIsOpen);
      FlatLength(gs[1..], isOut, if t then 0 else extra, absentIsOpen);
      assert SomeTakes(gs, isOut, absentIsOpen) <==> t || SomeTakes(gs[1..], isOut, absentIsOpen) by {
        if SomeTakes(gs[1..], isOut, absentIsOpen) {
          var i :| 0 <= i < |gs[1..]| && Takes(gs[1..][i].Ports(isOut), absentIsOpen);
          assert gs[i + 1] == gs[1..][i];
        }
        if i :| 0 < i < |gs| && Takes(gs[i].Ports(isOut), absentIsOpen) {
          assert gs[1..][i - 1] == gs[i];
        }
      }
    }
  }

  lemma {:induction false} OpenListTakes(gs: seq<Group>, isOut: bool, absentIsOpen: bool)
    requires OpenLists(gs, isOut) > 0
    ensures SomeTakes(gs, isOut, absentIsOpen)
  {
    var n := |gs| - 1;
    if !IsOpen(gs[n].Ports(isOut)) {
      OpenListTakes(gs[..n], isOut, absentIsOpen);
      var i :| 0 <= i < |gs[..n]| && Takes(gs[..n][i].Ports(isOut), absentIsOpen);
      assert Takes(gs[i].Ports(isOut), absentIsOpen);
    } else {
      assert Takes(gs[n].Ports(isOut), absentIsOpen);
    }
  }

  /** A statement nobody complains about, where both sides step, pairs lists of equal length. */
  lemma StepsMatch(outputs: seq<Group>, inputs: seq<Group>, isDouble: bool)
    requires Decide(outputs, inputs, isDouble).errors == {}
    requires Decide(outputs, inputs, isDouble).step0 && Decide(outputs, inputs, isDouble).step1
    ensures isDouble
    ensures |Inputs(outputs, inputs, isDouble)| == |Outputs(outputs, inputs, isDouble)|
  {
    var p := Decide(outputs, inputs, isDouble);
    var m0, m1 := MinPorts(inputs, false), MinPorts(outputs, true);
    FlatLength(inputs, false, NonNegative(p.extra0), m0 == 1);
    FlatLength(outputs, true, NonNegative(p.extra1), m1 == 1);
    if OpenLists(inputs, false) > 0 {
      OpenListTakes(inputs, false, m0 == 1);
    }
    if OpenLists(outputs, true) > 0 {
      OpenListTakes(outputs, true, m1 == 1);
    }
    if inputs != [] && inputs[0].ins == [] && m0 == 1 {
      assert Takes(inputs[0].Ports(false), true);
    }
    if outputs != [] && outputs[0].outs == [] && m1 == 1 {
      assert Takes(outputs[0].Ports(true), true);
    }
    assert TwoOpenLists !in p.errors && ManyToMany !in p.errors && Mismatch !in p.errors;
  }

  /** A side that does not step stands for at most one endpoint. */
  lemma FixedIsOne(outputs: seq<Group>, inputs: seq<Group>, isDouble: bool)
    ensures !Decide(outputs, inputs, isDouble).step0 ==> |Inputs(outputs, inputs, isDouble)| <= 1
    ensures !Decide(outputs, inputs, isDouble).step1 ==> |Outputs(outputs, inputs, isDouble)| <= 1
  {
    var p := Decide(outputs, inputs, isDouble);
    FlatLength(inputs, false, NonNegative(p.extra0), MinPorts(inputs, false) == 1);
    FlatLength(outputs, true, NonNegative(p.extra1), MinPorts(outputs, true) == 1);
  }

  lemma GroupRestFixed(g: Group, isOut: bool, extra: nat, absentIsOpen: bool)
    requires !Takes(g.Ports(isOut), absentIsOpen)
    ensures GroupRest(g, isOut, 0, extra, absentIsOpen) == GroupRest(g, isOut, 0, 0, absentIsOpen)
  {
  }

  lemma FlatCons(g: Group, gs: seq<Group>, isOut: bool, extra: nat, absentIsOpen: bool)
    ensures Flat([g] + gs, isOut, extra, absentIsOpen)
            == GroupRest(g, isOut, 0, extra, absentIsOpen)
               + Flat(gs, isOut, if Takes(g.Ports(isOut), absentIsOpen) then 0 else extra, absentIsOpen)
  {
    hide GroupRest;
    assert ([g] + gs)[1..] == gs;
  }

  lemma FlatNone(isOut: bool, extra: nat, absentIsOpen: bool)
    ensures Flat([], isOut, extra, absentIsOpen) == []
  {
  }

  /** The extra ports go, all and in order, to the one list that takes them; every other list gives
      just the ports it names. */
  lemma {:induction false} FlatExpandsOneList(before: seq<Group>, g: Group, after: seq<Group>, isOut: bool,
                                              extra: nat, absentIsOpen: bool)
    requires !SomeTakes(before, isOut, absentIsOpen) && Takes(g.Ports(isOut), absentIsOpen)
    ensures Flat(before + [g] + after, isOut, extra, absentIsOpen)
            == Flat(before, isOut, 0, absentIsOpen)
               + GroupRest(g, isOut, 0, extra, absentIsOpen)
               + Flat(after, isOut, 0, absentIsOpen)
  {
    hide GroupRest, Flat, Takes;
    var all := before + [g] + after;
    if before == [] {
      assert all == [g] + after;
      FlatCons(g, after, isOut, extra, absentIsOpen);
      FlatNone(isOut, 0, absentIsOpen);
    } else {
      var first, rest := before[0], before[1..];
      assert all == [first] + (rest + [g] + after) && before == [first] + rest;
      assert forall i :: 0 <= i < |rest| ==> rest[i] == before[i + 1];
      FlatCons(first, rest + [g] + after, isOut, extra, absentIsOpen);
      FlatCons(first, rest, isOut, 0, absentIsOpen);
      GroupRestFixed(first, isOut, extra, absentIsOpen);
      FlatExpandsOneList(rest, g, after, isOut, extra, absentIsOpen);
    }
  }

  // ---------------------------------------------------------------- the decision in terms of the lists

  /** What a list names: an absent one port 0, an open one the ports in front of its end. */
  lemma NamedIs(ps: seq<int>)
    requires ps != [] && forall i :: 0 <= i < |ps| ==> ps[i] >= 0
    ensures Named([]) == [0] && Named(ps) == ps && Named(ps + [-1]) == ps
    ensures !IsOpen([]) && !IsOpen(ps) && IsOpen(ps + [-1])
  {
  }

  function GroupEnds(g: Group, isOut: bool): (es: seq<Endpoint>)
  {
    var named := Named(g.Ports(isOut));
    seq(|named|, i requires 0 <= i < |named| => Endpoint(g.elem, named[i]))
  }

  /** The ports a side names, in order. */
  function Ends(gs: seq<Group>, isOut: bool): (es: seq<Endpoint>)
  {
    if gs == [] then [] else GroupEnds(gs[0], isOut) + Ends(gs[1..], isOut)
  }

  ghost predicate SomeOpen(gs: seq<Group>, isOut: bool)
  {
    exists i :: 0 <= i < |gs| && IsOpen(gs[i].Ports(isOut))
  }

  ghost predicate SeveralOpen(gs: seq<Group>, isOut: bool)
  {
    exists i, j :: 0 <= i < j < |gs| && IsOpen(gs[i].Ports(isOut)) && IsOpen(gs[j].Ports(isOut))
  }

  /** Two lists of the statement are open, wherever they are. */
  ghost predicate TwoOpen(outputs: seq<Group>, inputs: seq<Group>)
  {
    SeveralOpen(outputs, true) || SeveralOpen(inputs, false) || (SomeOpen(outputs, true) && SomeOpen(inputs, false))
  }

  /** The side is one element without ports. */
  predicate OneAbsent(gs: seq<Group>, isOut: bool)
  {
    |gs| == 1 && gs[0].Ports(isOut) == []
  }

  /** The input side is made as long as the output side: it has an open list, which counts for two
      only if the other side names more ports, or "=>" makes an absent list open. */
  ghost predicate GrowsIn(outputs: seq<Group>, inputs: seq<Group>, isDouble: bool)
  {
    || (SomeOpen(inputs, false) && (TwoOpen(outputs, inputs) ==> |Ends(inputs, false)| < |Ends(outputs, true)|))
    || (isDouble && OneAbsent(inputs, false) && |Ends(outputs, true)| > 1)
  }

  ghost predicate GrowsOut(outputs: seq<Group>, inputs: seq<Group>, isDouble: bool)
  {
    || (SomeOpen(outputs, true) && (TwoOpen(outputs, inputs) ==> |Ends(outputs, true)| <= |Ends(inputs, false)|))
    || (isDouble && OneAbsent(outputs, true) && |Ends(inputs, false)| > 1)
  }

  ghost predicate ManyIn(outputs: seq<Group>, inputs: seq<Group>, isDouble: bool)
  {
    |Ends(inputs, false)| > 1 || GrowsIn(outputs, inputs, isDouble)
  }

  ghost predicate ManyOut(outputs: seq<Group>, inputs: seq<Group>, isDouble: bool)
  {
    |Ends(outputs, true)| > 1 || GrowsOut(outputs, inputs, isDouble)
  }

  lemma GroupEndsAre(g: Group, isOut: bool, absentIsOpen: bool)
    ensures GroupRest(g, isOut, 0, 0, absentIsOpen) == GroupEnds(g, isOut)
  {
    var a, b := GroupRest(g, isOut, 0, 0, absentIsOpen), GroupEnds(g, isOut);
    assert |a| == |b|;
    forall i | 0 <= i < |a|
      ensures a[i] == b[i]
    {
      assert a[i] == Endpoint(g.elem, PortAt(g.Ports(isOut), 0 + i));
    }
  }

  lemma {:induction false} EndsAreFlat(gs: seq<Group>, isOut: bool, absentIsOpen: bool)
    ensures Flat(gs, isOut, 0, absentIsOpen) == Ends(gs, isOut)
    ensures |Ends(gs, isOut)| == MinPorts(gs, isOut) >= |gs|
  {
    if gs != [] {
      EndsAreFlat(gs[1..], isOut, absentIsOpen);
      MinPortsCons(gs, isOut);
      GroupEndsAre(gs[0], isOut, absentIsOpen);
    }
  }

  lemma SomeOpenMore(gs: seq<Group>, isOut: bool)
    requires gs != []
    ensures SomeOpen(gs, isOut) <==> SomeOpen(gs[..|gs| - 1], isOut) || IsOpen(gs[|gs| - 1].Ports(isOut))
  {
    hide IsOpen;
    var before := gs[..|gs| - 1];
    if SomeOpen(before, isOut) {
      var i :| 0 <= i < |before| && IsOpen(before[i].Ports(isOut));
      assert IsOpen(gs[i].Ports(isOut));
    }
    if i :| 0 <= i < |before| && IsOpen(gs[i].Ports(isOut)) {
      assert IsOpen(before[i].Ports(isOut));
    }
  }

  lemma SeveralOpenMore(gs: seq<Group>, isOut: bool)
    requires gs != []
    ensures var before := gs[..|gs| - 1];
            SeveralOpen(gs, isOut) <==>
              SeveralOpen(before, isOut) || (SomeOpen(before, isOut) && IsOpen(gs[|gs| - 1].Ports(isOut)))
  {
    hide IsOpen;
    var n := |gs| - 1;
    var before := gs[..n];
    if SeveralOpen(gs, isOut) {
      var i, j :| 0 <= i < j < |gs| && IsOpen(gs[i].Ports(isOut)) && IsOpen(gs[j].Ports(isOut));
      assert IsOpen(before[i].Ports(isOut));
      assert j < n ==> IsOpen(before[j].Ports(isOut));
    }
    if SeveralOpen(before, isOut) {
      var i, j :| 0 <= i < j < |before| && IsOpen(before[i].Ports(isOut)) && IsOpen(before[j].Ports(isOut));
      assert IsOpen(gs[i].Ports(isOut)) && IsOpen(gs[j].Ports(isOut));
    } else if SomeOpen(before, isOut) && IsOpen(gs[n].Ports(isOut)) {
      var i :| 0 <= i < |before| && IsOpen(before[i].Ports(isOut));
      assert IsOpen(gs[i].Ports(isOut)) && i < n;
    }
  }

  lemma {:induction false} OpenListsCount(gs: seq<Group>, isOut: bool)
    ensures OpenLists(gs, isOut) > 0 <==> SomeOpen(gs, isOut)
    ensures OpenLists(gs, isOut) > 1 <==> SeveralOpen(gs, isOut)
  {
    if gs != [] {
      hide IsOpen, SomeOpen, SeveralOpen;
      OpenListsCount(gs[..|gs| - 1], isOut);
      SomeOpenMore(gs, isOut);
      SeveralOpenMore(gs, isOut);
    }
  }

  /** The counts of the source in terms of the lists. */
  lemma CountsAre(gs: seq<Group>, isOut: bool)
    ensures MinPorts(gs, isOut) == |Ends(gs, isOut)|
    ensures OpenLists(gs, isOut) > 0 <==> SomeOpen(gs, isOut)
    ensures OpenLists(gs, isOut) > 1 <==> SeveralOpen(gs, isOut)
    ensures MinPorts(gs, isOut) == 1 && gs != [] && gs[0].Ports(isOut) == [] <==> OneAbsent(gs, isOut)
  {
    hide MinPorts, OpenLists, Ends;
    EndsAreFlat(gs, isOut, true);
    OpenListsCount(gs, isOut);
    if OneAbsent(gs, isOut) {
      OneAbsentEnds(gs, isOut);
    }
  }

  lemma OneAbsentEnds(gs: seq<Group>, isOut: bool)
    requires OneAbsent(gs, isOut)
    ensures Ends(gs, isOut) == [Endpoint(gs[0].elem, 0)]
  {
    assert Ends(gs[1..], isOut) == [];
  }

  ghost predicate BothMany(outputs: seq<Group>, inputs: seq<Group>, isDouble: bool)
  {
    ManyOut(outputs, inputs, isDouble) && ManyIn(outputs, inputs, isDouble)
  }

  /** One side names fewer ports than the other and does not grow. */
  ghost predicate Unequal(outputs: seq<Group>, inputs: seq<Group>, isDouble: bool)
  {
    || (|Ends(inputs, false)| < |Ends(outputs, true)| && !GrowsIn(outputs, inputs, isDouble))
    || (|Ends(outputs, true)| < |Ends(inputs, false)| && !GrowsOut(outputs, inputs, isDouble))
  }

  /** There is nothing to complain about. */
  ghost predicate Clean(outputs: seq<Group>, inputs: seq<Group>, isDouble: bool)
  {
    && !TwoOpen(outputs, inputs)
    && (BothMany(outputs, inputs, isDouble) ==> isDouble && !Unequal(outputs, inputs, isDouble))
  }

  lemma ErrorsExactly(outputs: seq<Group>, inputs: seq<Group>, isDouble: bool)
    ensures var errors := Decide(outputs, inputs, isDouble).errors;
            && (TwoOpenLists in errors <==> TwoOpen(outputs, inputs))
            && (ManyToMany in errors <==> !isDouble && BothMany(outputs, inputs, false))
            && (Mismatch in errors <==> BothMany(outputs, inputs, isDouble) && Unequal(outputs, inputs, isDouble))
  {
    hide MinPorts, OpenLists, Ends, SomeOpen, SeveralOpen, OneAbsent;
    CountsAre(outputs, true);
    CountsAre(inputs, false);
  }

  lemma CleanIs(outputs: seq<Group>, inputs: seq<Group>, isDouble: bool)
    ensures Decide(outputs, inputs, isDouble).errors == {} <==> Clean(outputs, inputs, isDouble)
  {
    hide Decide, TwoOpen, ManyIn, ManyOut, Unequal;
    ErrorsExactly(outputs, inputs, isDouble);
    var errors := Decide(outputs, inputs, isDouble).errors;
    if errors != {} {
      var e :| e in errors;
      assert e == TwoOpenLists || e == ManyToMany || e == Mismatch;
    }
  }

  lemma StepsExactly(outputs: seq<Group>, inputs: seq<Group>, isDouble: bool)
    ensures var p := Decide(outputs, inputs, isDouble);
            var many0, many1 := ManyIn(outputs, inputs, isDouble), ManyOut(outputs, inputs, isDouble);
            var n0, n1 := |Ends(inputs, false)|, |Ends(outputs, true)|;
            && p.step1 == many1 && p.step0 == (many0 || !many1)
            && p.extra0 == (if GrowsIn(outputs, inputs, isDouble) then n1 - n0 else 0)
            && p.extra1 == (if GrowsOut(outputs, inputs, isDouble) then n0 - n1 else 0)
  {
    hide MinPorts, OpenLists, Ends, SomeOpen, SeveralOpen, OneAbsent;
    CountsAre(outputs, true);
    CountsAre(inputs, false);
  }

  // ---------------------------------------------------------------- the loop

  /** A remembered port is the one under the cursor; -1 means it has yet to be read. */
  ghost predicate PortKnown(gs: seq<Group>, isOut: bool, c: Cursor, port: int)
  {
    && (port < 0 ==> c.i == 0)
    && (port >= 0 && c.g < |gs| ==> port == PortAt(gs[c.g].Ports(isOut), c.i))
  }

  /** The first n connections made by stepping through the two lists. */
  function Paired(outs: seq<Endpoint>, ins: seq<Endpoint>, step1: bool, step0: bool, n: nat): (cs: seq<Connection>)
    requires n > 0 ==> outs != [] && ins != []
    requires (step1 ==> n <= |outs|) && (step0 ==> n <= |ins|)
    ensures |cs| == n
  {
    seq(n, i requires 0 <= i < n => Connection(outs[if step1 then i else 0], ins[if step0 then i else 0]))
  }

  /** How many: until a stepping side runs out; none if a side is empty. */
  function PairCount(outs: seq<Endpoint>, ins: seq<Endpoint>, step1: bool, step0: bool): (n: nat)
    ensures n > 0 ==> outs != [] && ins != []
    ensures (step1 ==> n <= |outs|) && (step0 ==> n <= |ins|)
  {
    if outs == [] || ins == [] then 0
    else if step0 && step1 then if |outs| < |ins| then |outs| else |ins|
    else if step1 then |outs| else if step0 then |ins| else 0
  }

  /** One side of the loop: after n connections, a stepping cursor has n endpoints behind it and a
      fixed one none. */
  ghost predicate SideAt(gs: seq<Group>, isOut: bool, c: Cursor, port: int, minPorts: nat,
                         all: seq<Endpoint>, step: bool, n: nat)
  {
    && OnPort(gs, isOut, c, minPorts == 1)
    && PortKnown(gs, isOut, c, port)
    && (step ==> n <= |all|)
    && Rest(gs, isOut, c, minPorts == 1) == if step then all[n..] else all
  }

  lemma SideStarts(gs: seq<Group>, isOut: bool, extra: int, minPorts: nat, step: bool)
    ensures SideAt(gs, isOut, Cursor(0, 0, extra), -1, minPorts,
                   Flat(gs, isOut, NonNegative(extra), minPorts == 1), step, 0)
  {
    RestAtGroup(gs, isOut, 0, extra, minPorts == 1);
    assert gs[0..] == gs;
  }

  lemma SideHead(gs: seq<Group>, isOut: bool, c: Cursor, port: int, minPorts: nat,
                 all: seq<Endpoint>, step: bool, n: nat)
    requires SideAt(gs, isOut, c, port, minPorts, all, step, n)
    ensures c.g <= |gs|
    ensures c.g < |gs| <==> (if step then n < |all| else all != [])
    ensures c.g < |gs| ==> all[if step then n else 0] == Endpoint(gs[c.g].elem, PortAt(gs[c.g].Ports(isOut), c.i))
  {
    var rest := Rest(gs, isOut, c, minPorts == 1);
    if c.g < |gs| {
      assert rest[0] == Endpoint(gs[c.g].elem, PortAt(gs[c.g].Ports(isOut), c.i));
    }
  }

  lemma SideSteps(gs: seq<Group>, isOut: bool, c: Cursor, port: int, minPorts: nat,
                  all: seq<Endpoint>, n: nat, port': int)
    requires PortLists(gs, isOut) && SideAt(gs, isOut, c, port, minPorts, all, true, n) && c.g < |gs|
    requires PortKnown(gs, isOut, Advance(gs, isOut, c, minPorts), port')
    ensures SideAt(gs, isOut, Advance(gs, isOut, c, minPorts), port', minPorts, all, true, n + 1)
  {
    hide Rest, Advance;
    SideHead(gs, isOut, c, port, minPorts, all, true, n);
    AdvanceIsTail(gs, isOut, c, minPorts);
    assert all[n..][1..] == all[n + 1..];
  }

  lemma PairedMore(outs: seq<Endpoint>, ins: seq<Endpoint>, step1: bool, step0: bool, n: nat)
    requires outs != [] && ins != []
    requires (step1 ==> n < |outs|) && (step0 ==> n < |ins|)
    ensures Paired(outs, ins, step1, step0, n + 1)
            == Paired(outs, ins, step1, step0, n)
               + [Connection(outs[if step1 then n else 0], ins[if step0 then n else 0])]
  {
  }

  lemma OneSteps(outputs: seq<Group>, inputs: seq<Group>, isDouble: bool)
    ensures Decide(outputs, inputs, isDouble).step0 || Decide(outputs, inputs, isDouble).step1
  {
  }

  /** Read the port under the cursor, if it has not been. */
  method LoadSide(gs: seq<Group>, isOut: bool, c: Cursor, port: int, ghost minPorts: nat,
                  ghost all: seq<Endpoint>, ghost step: bool, ghost n: nat) returns (port': int)
    requires PortLists(gs, isOut) && SideAt(gs, isOut, c, port, minPorts, all, step, n) && c.g < |gs|
    ensures SideAt(gs, isOut, c, port', minPorts, all, step, n)
    ensures port' == PortAt(gs[c.g].Ports(isOut), c.i)
  {
    hide Rest;
    port' := port;
    var ps := gs[c.g].Ports(isOut);
    assert PortList(ps);
    if port < 0 {
      port' := if |ps| != 0 then ps[0] else 0;
    }
  }

  /** Move one side on, if it steps. */
  method StepSide(gs: seq<Group>, isOut: bool, c: Cursor, port: int, minPorts: nat,
                  ghost all: seq<Endpoint>, step: bool, ghost n: nat) returns (c': Cursor, port': int)
    requires PortLists(gs, isOut) && SideAt(gs, isOut, c, port, minPorts, all, step, n) && c.g < |gs|
    ensures SideAt(gs, isOut, c', port', minPorts, all, step, n + 1)
  {
    hide Rest;
    c', port' := c, port;
    if step {
      var ps := gs[c.g].Ports(isOut);
      assert PortList(ps);
      var np, i := |ps|, c.i + 1;
      if i < np && ps[i] >= 0 {
        c', port' := Cursor(c.g, i, c.extra), ps[i];
      } else if np != 0 && ps[np - 1] == -1 && c.extra > 0 {
        c', port' := Cursor(c.g, i, c.extra - 1), ps[np - 2] + i - (np - 2);
      } else if np == 0 && minPorts == 1 && c.extra > 0 {
        c', port' := Cursor(c.g, i, c.extra - 1), i;
      } else {
        c', port' := Cursor(c.g + 1, 0, c.extra), -1;
      }
      SideSteps(gs, isOut, c, port, minPorts, all, n, port');
    }
  }

  /** The connections a statement makes. */
  function Connected(outputs: seq<Group>, inputs: seq<Group>, isDouble: bool): (cs: seq<Connection>)
  {
    var p := Decide(outputs, inputs, isDouble);
    var outs, ins := Outputs(outputs, inputs, isDouble), Inputs(outputs, inputs, isDouble);
    Paired(outs, ins, p.step1, p.step0, PairCount(outs, ins, p.step1, p.step0))
  }

  /** yconnection_connect_all: what is connected is always the pairing of the two sides' endpoints;
      when nothing is complained about, that is a one-to-one pairing if both sides step, and
      otherwise one port against all ports of the other side. */
  method ConnectAll(outputs: seq<Group>, inputs: seq<Group>, isDouble: bool)
    returns (conns: seq<Connection>, errors: set<Error>)
    requires PortLists(outputs, true) && PortLists(inputs, false)
    ensures conns == Connected(outputs, inputs, isDouble)
    ensures TwoOpenLists in errors <==> TwoOpen(outputs, inputs)
    ensures ManyToMany in errors <==> !isDouble && BothMany(outputs, inputs, false)
    ensures Mismatch in errors <==> BothMany(outputs, inputs, isDouble) && Unequal(outputs, inputs, isDouble)
    ensures errors == {} <==> Clean(outputs, inputs, isDouble)
  {
    ErrorsExactly(outputs, inputs, isDouble);
    CleanIs(outputs, inputs, isDouble);
    hide SideAt, Flat, Decide, Advance, Rest, OnPort, PortKnown, PortLists, MinPorts, OpenLists, Paired, PortAt;
    var m1, n1 := AnalyzePorts(outputs, true);
    var m0, n0 := AnalyzePorts(inputs, false);
    var p := Decide(outputs, inputs, isDouble);
    errors := p.errors;
    ghost var outs, ins := Outputs(outputs, inputs, isDouble), Inputs(outputs, inputs, isDouble);
    OneSteps(outputs, inputs, isDouble);
    var c0, c1, p0, p1 := Cursor(0, 0, p.extra0), Cursor(0, 0, p.extra1), -1, -1;
    SideStarts(inputs, false, p.extra0, m0, p.step0);
    SideStarts(outputs, true, p.extra1, m1, p.step1);
    conns := [];
    assert conns == Paired(outs, ins, p.step1, p.step0, 0);
    while c0.g != |inputs| && c1.g != |outputs|
      invariant SideAt(inputs, false, c0, p0, m0, ins, p.step0, |conns|)
      invariant SideAt(outputs, true, c1, p1, m1, outs, p.step1, |conns|)
      invariant conns != [] ==> outs != [] && ins != []
      invariant (p.step1 ==> |conns| <= |outs|) && (p.step0 ==> |conns| <= |ins|)
      invariant conns == Paired(outs, ins, p.step1, p.step0, |conns|)
      decreases (if p.step0 then |ins| else |outs|) - |conns|
    {
      ghost var n := |conns|;
      SideHead(inputs, false, c0, p0, m0, ins, p.step0, n);
      SideHead(outputs, true, c1, p1, m1, outs, p.step1, n);
      p0 := LoadSide(inputs, false, c0, p0, m0, ins, p.step0, n);
      p1 := LoadSide(outputs, true, c1, p1, m1, outs, p.step1, n);
      PairedMore(outs, ins, p.step1, p.step0, n);
      conns := conns + [Connection(Endpoint(outputs[c1.g].elem, p1), Endpoint(inputs[c0.g].elem, p0))];
      c0, p0 := StepSide(inputs, false, c0, p0, m0, ins, p.step0, n);
      c1, p1 := StepSide(outputs, true, c1, p1, m1, outs, p.step1, n);
    }
    SideHead(inputs, false, c0, p0, m0, ins, p.step0, |conns|);
    SideHead(outputs, true, c1, p1, m1, outs, p.step1, |conns|);
  }

  /** What a statement nobody complains about connects: if both sides stand for many, the endpoints
      pair off one to one, none left over; otherwise the one endpoint of a side meets every endpoint
      of the other. */
  lemma CleanStatement(outputs: seq<Group>, inputs: seq<Group>, isDouble: bool)
    requires Clean(outputs, inputs, isDouble)
    ensures var outs, ins := Outputs(outputs, inputs, isDouble), Inputs(outputs, inputs, isDouble);
            var cs := Connected(outputs, inputs, isDouble);
            if BothMany(outputs, inputs, isDouble) then
              |cs| == |outs| == |ins| && forall i :: 0 <= i < |cs| ==> cs[i] == Connection(outs[i], ins[i])
            else if outs == [] || ins == [] then cs == []
            else if ManyOut(outputs, inputs, isDouble) then
              |ins| == 1 && |cs| == |outs| && forall i :: 0 <= i < |cs| ==> cs[i] == Connection(outs[i], ins[0])
            else
              |outs| == 1 && |cs| == |ins| && forall i :: 0 <= i < |cs| ==> cs[i] == Connection(outs[0], ins[i])
  {
    hide Flat, Decide, ManyIn, ManyOut, Clean;
    CleanIs(outputs, inputs, isDouble);
    StepsExactly(outputs, inputs, isDouble);
    FixedIsOne(outputs, inputs, isDouble);
    if BothMany(outputs, inputs, isDouble) {
      StepsMatch(outputs, inputs, isDouble);
    }
  }

  // ---------------------------------------------------------------- what statements mean

  lemma ConnectedIs(outputs: seq<Group>, inputs: seq<Group>, isDouble: bool)
    ensures var n0, n1 := |Ends(inputs, false)|, |Ends(outputs, true)|;
            var x0 := NonNegative(if GrowsIn(outputs, inputs, isDouble) then n1 - n0 else 0);
            var x1 := NonNegative(if GrowsOut(outputs, inputs, isDouble) then n0 - n1 else 0);
            var outs, ins := Flat(outputs, true, x1, n1 == 1), Flat(inputs, false, x0, n0 == 1);
            var s1 := ManyOut(outputs, inputs, isDouble);
            var s0 := ManyIn(outputs, inputs, isDouble) || !s1;
            Connected(outputs, inputs, isDouble) == Paired(outs, ins, s1, s0, PairCount(outs, ins, s1, s0))
  {
    hide Decide, Flat, Ends, GrowsIn, GrowsOut, ManyIn, ManyOut, MinPorts, Paired;
    StepsExactly(outputs, inputs, isDouble);
    CountsAre(outputs, true);
    CountsAre(inputs, false);
  }

  /** Both sides name as many ports: "=>" connects them one to one. */
  lemma EqualNumbers(outputs: seq<Group>, inputs: seq<Group>)
    requires !SomeOpen(outputs, true) && !SomeOpen(inputs, false)
    requires |Ends(outputs, true)| == |Ends(inputs, false)|
    ensures Clean(outputs, inputs, true)
    ensures var outs, ins := Ends(outputs, true), Ends(inputs, false);
            && |Connected(outputs, inputs, true)| == |outs|
            && forall i :: 0 <= i < |outs| ==> Connected(outputs, inputs, true)[i] == Connection(outs[i], ins[i])
  {
    hide Decide, Flat, Ends, Connected, OneAbsent;
    NotTwoOpen(outputs, inputs);
    ConnectedIs(outputs, inputs, true);
    EndsAreFlat(outputs, true, |Ends(outputs, true)| == 1);
    EndsAreFlat(inputs, false, |Ends(inputs, false)| == 1);
    OneAbsentEndsIf(outputs, true);
    OneAbsentEndsIf(inputs, false);
  }

  lemma NotTwoOpen(outputs: seq<Group>, inputs: seq<Group>)
    ensures !SomeOpen(outputs, true) ==> !SeveralOpen(outputs, true)
    ensures !SomeOpen(inputs, false) ==> !SeveralOpen(inputs, false)
  {
  }

  lemma OneAbsentEndsIf(gs: seq<Group>, isOut: bool)
    ensures OneAbsent(gs, isOut) ==> |Ends(gs, isOut)| == 1
  {
    if OneAbsent(gs, isOut) {
      OneAbsentEnds(gs, isOut);
    }
  }

  /** One output port, written down or not meant to expand, is connected to every input port. */
  lemma OneOutput(outputs: seq<Group>, inputs: seq<Group>, isDouble: bool)
    requires !SomeOpen(outputs, true) && !SomeOpen(inputs, false) && |Ends(outputs, true)| == 1
    requires isDouble && OneAbsent(outputs, true) ==> |Ends(inputs, false)| <= 1
    ensures Clean(outputs, inputs, isDouble)
    ensures var out, ins := Ends(outputs, true)[0], Ends(inputs, false);
            && |Connected(outputs, inputs, isDouble)| == |ins|
            && forall i :: 0 <= i < |ins| ==> Connected(outputs, inputs, isDouble)[i] == Connection(out, ins[i])
  {
    hide Decide, Flat, Ends, Connected, OneAbsent;
    NotTwoOpen(outputs, inputs);
    ConnectedIs(outputs, inputs, isDouble);
    EndsAreFlat(outputs, true, |Ends(outputs, true)| == 1);
    EndsAreFlat(inputs, false, |Ends(inputs, false)| == 1);
  }

  /** Every output port is connected to the one input port, likewise. */
  lemma OneInput(outputs: seq<Group>, inputs: seq<Group>, isDouble: bool)
    requires !SomeOpen(outputs, true) && !SomeOpen(inputs, false) && |Ends(inputs, false)| == 1
    requires isDouble && OneAbsent(inputs, false) ==> |Ends(outputs, true)| <= 1
    ensures Clean(outputs, inputs, isDouble)
    ensures var outs, into := Ends(outputs, true), Ends(inputs, false)[0];
            && |Connected(outputs, inputs, isDouble)| == |outs|
            && forall i :: 0 <= i < |outs| ==> Connected(outputs, inputs, isDouble)[i] == Connection(outs[i], into)
  {
    hide Decide, Flat, Ends, Connected, OneAbsent;
    NotTwoOpen(outputs, inputs);
    ConnectedIs(outputs, inputs, isDouble);
    EndsAreFlat(outputs, true, |Ends(outputs, true)| == 1);
    EndsAreFlat(inputs, false, |Ends(inputs, false)| == 1);
  }

  /** A list with its extra ports: those named and, one by one, the numbers behind the last. */
  function Grown(elem: int, named: seq<int>, extra: nat): (es: seq<Endpoint>)
    requires named != []
    ensures |es| == |named| + extra
  {
    seq(|named| + extra, i requires 0 <= i < |named| + extra =>
      Endpoint(elem, if i < |named| then named[i] else named[|named| - 1] + (i - |named| + 1)))
  }

  lemma GroupGrows(g: Group, isOut: bool, named: seq<int>, extra: nat, absentIsOpen: bool)
    requires named != [] && forall i :: 0 <= i < |named| ==> named[i] >= 0
    requires g.Ports(isOut) == named + [-1] || (g.Ports(isOut) == [] && absentIsOpen && named == [0])
    ensures GroupRest(g, isOut, 0, extra, absentIsOpen) == Grown(g.elem, named, extra)
  {
    NamedIs(named);
    var a, b := GroupRest(g, isOut, 0, extra, absentIsOpen), Grown(g.elem, named, extra);
    assert |a| == |b|;
    forall i | 0 <= i < |a|
      ensures a[i] == b[i]
    {
      assert a[i] == Endpoint(g.elem, PortAt(g.Ports(isOut), 0 + i));
    }
  }

  lemma OneGroup(g: Group, isOut: bool, extra: nat, absentIsOpen: bool)
    ensures Flat([g], isOut, extra, absentIsOpen) == GroupRest(g, isOut, 0, extra, absentIsOpen)
  {
    hide GroupRest;
    FlatCons(g, [], isOut, extra, absentIsOpen);
    FlatNone(isOut, if Takes(g.Ports(isOut), absentIsOpen) then 0 else extra, absentIsOpen);
    assert [g] + [] == [g];
  }

  /** "=>" to an element without ports: the i-th of several output ports goes to its port i. */
  lemma AbsentInput(outputs: seq<Group>, inputs: seq<Group>)
    requires !SomeOpen(outputs, true) && OneAbsent(inputs, false) && |Ends(outputs, true)| > 1
    ensures Clean(outputs, inputs, true)
    ensures var outs := Ends(outputs, true);
            && |Connected(outputs, inputs, true)| == |outs|
            && forall i :: 0 <= i < |outs| ==>
                 Connected(outputs, inputs, true)[i] == Connection(outs[i], Endpoint(inputs[0].elem, i))
  {
    hide Decide, Flat, Ends, Connected, GroupRest;
    var n, g := |Ends(outputs, true)|, inputs[0];
    OneAbsentEnds(inputs, false);
    NotTwoOpen(outputs, inputs);
    ConnectedIs(outputs, inputs, true);
    EndsAreFlat(outputs, true, n == 1);
    assert inputs == [g];
    OneGroup(g, false, n - 1, true);
    GroupGrows(g, false, [0], n - 1, true);
  }

  /** "=>" from an element without ports: its port i goes to the i-th of several input ports. */
  lemma AbsentOutput(outputs: seq<Group>, inputs: seq<Group>)
    requires !SomeOpen(inputs, false) && OneAbsent(outputs, true) && |Ends(inputs, false)| > 1
    ensures Clean(outputs, inputs, true)
    ensures var ins := Ends(inputs, false);
            && |Connected(outputs, inputs, true)| == |ins|
            && forall i :: 0 <= i < |ins| ==>
                 Connected(outputs, inputs, true)[i] == Connection(Endpoint(outputs[0].elem, i), ins[i])
  {
    hide Decide, Flat, Ends, Connected, GroupRest;
    var n, g := |Ends(inputs, false)|, outputs[0];
    OneAbsentEnds(outputs, true);
    NotTwoOpen(outputs, inputs);
    ConnectedIs(outputs, inputs, true);
    EndsAreFlat(inputs, false, n == 1);
    assert outputs == [g];
    OneGroup(g, true, n - 1, true);
    GroupGrows(g, true, [0], n - 1, true);
  }

  /** Groups around the one whose list is open. */
  ghost predicate OpenAt(gs: seq<Group>, isOut: bool, before: seq<Group>, g: Group, named: seq<int>, after: seq<Group>)
  {
    && gs == before + [g] + after && g.Ports(isOut) == named + [-1]
    && named != [] && (forall i :: 0 <= i < |named| ==> named[i] >= 0)
    && !SomeOpen(before, isOut) && !SomeOpen(after, isOut)
  }

  lemma OpenAtIs(gs: seq<Group>, isOut: bool, before: seq<Group>, g: Group, named: seq<int>, after: seq<Group>)
    requires OpenAt(gs, isOut, before, g, named, after)
    ensures SomeOpen(gs, isOut) && !SeveralOpen(gs, isOut) && !OneAbsent(gs, isOut)
    ensures |Ends(gs, isOut)| >= |gs|
  {
    hide IsOpen, Ends;
    NamedIs(named);
    EndsAreFlat(gs, isOut, true);
    var k := |before|;
    assert gs[k] == g;
    forall i | 0 <= i < |gs| && i != k
      ensures !IsOpen(gs[i].Ports(isOut))
    {
      assert if i < k then gs[i] == before[i] else gs[i] == after[i - k - 1];
    }
  }

  /** The side with its open list grown. */
  function Widened(before: seq<Group>, g: Group, named: seq<int>, after: seq<Group>, isOut: bool, extra: nat): (es: seq<Endpoint>)
    requires named != []
  {
    Ends(before, isOut) + Grown(g.elem, named, extra) + Ends(after, isOut)
  }

  lemma OpenSideGrows(gs: seq<Group>, isOut: bool, before: seq<Group>, g: Group, named: seq<int>, after: seq<Group>,
                      extra: nat)
    requires OpenAt(gs, isOut, before, g, named, after)
    ensures Flat(gs, isOut, extra, |Ends(gs, isOut)| == 1) == Widened(before, g, named, after, isOut, extra)
    ensures |Widened(before, g, named, after, isOut, extra)| == |Ends(gs, isOut)| + extra
  {
    hide Flat, Ends, GroupRest, Grown, MinPorts;
    var absent := |Ends(gs, isOut)| == 1;
    OpenAtIs(gs, isOut, before, g, named, after);
    NamedIs(named);
    assert !SomeTakes(before, isOut, absent);
    FlatExpandsOneList(before, g, after, isOut, extra, absent);
    EndsAreFlat(before, isOut, absent);
    EndsAreFlat(after, isOut, absent);
    GroupGrows(g, isOut, named, extra, absent);
    EndsAreFlat(gs, isOut, absent);
    FlatLength(gs, isOut, extra, absent);
    assert gs[|before|] == g;
    assert SomeTakes(gs, isOut, absent);
  }

  /** An open list of inputs takes as many ports as the outputs need, and the sides are connected one
      to one. */
  lemma OpenInput(outputs: seq<Group>, inputs: seq<Group>, isDouble: bool,
                  before: seq<Group>, g: Group, named: seq<int>, after: seq<Group>)
    requires OpenAt(inputs, false, before, g, named, after) && !SomeOpen(outputs, true)
    requires |Ends(outputs, true)| >= |Ends(inputs, false)| && (isDouble || |Ends(outputs, true)| == 1)
    ensures Clean(outputs, inputs, isDouble)
    ensures var outs := Ends(outputs, true);
            var ins := Widened(before, g, named, after, false, |outs| - |Ends(inputs, false)|);
            && |Connected(outputs, inputs, isDouble)| == |outs| == |ins|
            && forall i :: 0 <= i < |outs| ==> Connected(outputs, inputs, isDouble)[i] == Connection(outs[i], ins[i])
  {
    hide Decide, Flat, Ends, Connected, Widened, OpenAt, OneAbsent;
    var n0, n1 := |Ends(inputs, false)|, |Ends(outputs, true)|;
    OpenAtIs(inputs, false, before, g, named, after);
    OpenAtNamed(inputs, false, before, g, named, after);
    NotTwoOpen(outputs, inputs);
    ConnectedIs(outputs, inputs, isDouble);
    EndsAreFlat(outputs, true, n1 == 1);
    OneAbsentEndsIf(outputs, true);
    OpenSideGrows(inputs, false, before, g, named, after, n1 - n0);
  }

  lemma OpenAtNamed(gs: seq<Group>, isOut: bool, before: seq<Group>, g: Group, named: seq<int>, after: seq<Group>)
    requires OpenAt(gs, isOut, before, g, named, after)
    ensures named != [] && gs != []
  {
  }

  /** An open list of outputs, likewise. */
  lemma OpenOutput(outputs: seq<Group>, inputs: seq<Group>, isDouble: bool,
                   before: seq<Group>, g: Group, named: seq<int>, after: seq<Group>)
    requires OpenAt(outputs, true, before, g, named, after) && !SomeOpen(inputs, false)
    requires |Ends(inputs, false)| >= |Ends(outputs, true)| && (isDouble || |Ends(inputs, false)| == 1)
    ensures Clean(outputs, inputs, isDouble)
    ensures var ins := Ends(inputs, false);
            var outs := Widened(before, g, named, after, true, |ins| - |Ends(outputs, true)|);
            && |Connected(outputs, inputs, isDouble)| == |outs| == |ins|
            && forall i :: 0 <= i < |ins| ==> Connected(outputs, inputs, isDouble)[i] == Connection(outs[i], ins[i])
  {
    hide Decide, Flat, Ends, Connected, Widened, OpenAt, OneAbsent;
    var n0, n1 := |Ends(inputs, false)|, |Ends(outputs, true)|;
    OpenAtIs(outputs, true, before, g, named, after);
    OpenAtNamed(outputs, true, before, g, named, after);
    NotTwoOpen(outputs, inputs);
    ConnectedIs(outputs, inputs, isDouble);
    EndsAreFlat(inputs, false, n0 == 1);
    OneAbsentEndsIf(inputs, false);
    OpenSideGrows(outputs, true, before, g, named, after, n0 - n1);
  }
}
