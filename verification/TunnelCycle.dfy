/** Why cycles of tunnels must be excluded: three tunnels in a cycle, and a chain of four
    connections through all of them that the expansion loses. */
module TunnelCycle {
  import opened Tunnels

  const SRC := Port(0, 0)
  const DST := Port(1, 0)
  const SIDE_IN := Port(2, 0)
  const SIDE_OUT := Port(3, 0)
  const IN1 := Port(11, 0)
  const IN2 := Port(12, 0)
  const IN3 := Port(13, 0)
  const OUT1 := Port(21, 0)
  const OUT2 := Port(22, 0)
  const OUT3 := Port(23, 0)

  const NET := Net({11, 12, 13, 21, 22, 23}, {0, 1, 2, 3},
                   map[(11, false) := 21, (21, true) := 11,
                       (12, false) := 22, (22, true) := 12,
                       (13, false) := 23, (23, true) := 13])

  const CONNS := [Conn(IN3, SIDE_IN), Conn(SIDE_OUT, OUT1), Conn(IN1, SRC), Conn(IN2, OUT1),
                  Conn(IN3, OUT2), Conn(DST, OUT3), Conn(IN2, OUT3), Conn(IN1, OUT2)]

  /** The chain through all three tunnels. */
  const PATH := [Conn(IN1, SRC), Conn(IN2, OUT1), Conn(IN3, OUT2), Conn(DST, OUT3)]

  lemma NetIsValid()
    ensures NET.Valid()
  {
    hide NET;
    TunnelsAreNoElements();
    forall e | e in NET.ends
      ensures e.0 in NET.tunnels
      ensures (NET.ends[e], !e.1) in NET.ends && NET.ends[(NET.ends[e], !e.1)] == e.0
    {
      EndsArePaired(e);
    }
  }

  lemma TunnelsAreNoElements()
    ensures NET.tunnels !! NET.elements
  {
  }

  lemma EndsArePaired(e: (int, bool))
    requires e in NET.ends
    ensures e.0 in NET.tunnels
    ensures (NET.ends[e], !e.1) in NET.ends && NET.ends[(NET.ends[e], !e.1)] == e.0
  {
    var (idx, isOut) := e;
    assert (idx, isOut) == e;
    if isOut {
      assert idx == 21 || idx == 22 || idx == 23;
    } else {
      assert idx == 11 || idx == 12 || idx == 13;
    }
  }

  lemma PathJoins()
    ensures Joins(NET, CONNS, PATH, SRC, DST)
  {
    assert PATH[0] == CONNS[2] && PATH[1] == CONNS[3] && PATH[2] == CONNS[4] && PATH[3] == CONNS[5];
  }

  lemma DirectSnoc(k: Key, conns: seq<Conn>, c: Conn)
    requires NET.Has(k)
    ensures Direct(NET, conns + [c], k)
            == Direct(NET, conns, k) + if c.Side(!k.isOut) == NET.Other(k).port then [c.Side(k.isOut)] else []
  {
    assert (conns + [c])[..|conns|] == conns;
  }

  lemma DirectEight(k: Key)
    requires NET.Has(k)
    ensures var o := NET.Other(k).port;
            Direct(NET, CONNS, k) == Pick(k, o, 0) + Pick(k, o, 1) + Pick(k, o, 2) + Pick(k, o, 3)
                                     + Pick(k, o, 4) + Pick(k, o, 5) + Pick(k, o, 6) + Pick(k, o, 7)
  {
    assert CONNS[..0] == [];
    DirectPrefix(k, 0);
    DirectPrefix(k, 1);
    DirectPrefix(k, 2);
    DirectPrefix(k, 3);
    DirectPrefix(k, 4);
    DirectPrefix(k, 5);
    DirectPrefix(k, 6);
    DirectPrefix(k, 7);
    assert CONNS[..8] == CONNS;
  }

  lemma DirectPrefix(k: Key, i: nat)
    requires NET.Has(k) && i < 8
    ensures Direct(NET, CONNS[..i + 1], k) == Direct(NET, CONNS[..i], k) + Pick(k, NET.Other(k).port, i)
  {
    assert CONNS[..i + 1] == CONNS[..i] + [CONNS[i]];
    DirectSnoc(k, CONNS[..i], CONNS[i]);
  }

  function Pick(k: Key, o: Port, i: nat): seq<Port>
    requires i < 8
  {
    if CONNS[i].Side(!k.isOut) == o then [CONNS[i].Side(k.isOut)] else []
  }

  lemma DirectIn1()
    ensures Direct(NET, CONNS, Key(IN1, false)) == [SIDE_OUT, IN2]
  {
    DirectEight(Key(IN1, false));
  }

  lemma DirectIn2()
    ensures Direct(NET, CONNS, Key(IN2, false)) == [IN3, IN1]
  {
    DirectEight(Key(IN2, false));
  }

  lemma DirectIn3()
    ensures Direct(NET, CONNS, Key(IN3, false)) == [DST, IN2]
  {
    DirectEight(Key(IN3, false));
  }

  lemma DirectOut1()
    ensures Direct(NET, CONNS, Key(OUT1, true)) == [SRC, OUT2]
  {
    DirectEight(Key(OUT1, true));
  }

  lemma DirectOut2()
    ensures Direct(NET, CONNS, Key(OUT2, true)) == [OUT1, OUT3]
  {
    DirectEight(Key(OUT2, true));
  }

  lemma DirectOut3()
    ensures Direct(NET, CONNS, Key(OUT3, true)) == [SIDE_IN, OUT2]
  {
    DirectEight(Key(OUT3, true));
  }

  // ---------------------------------------------------------------- evaluating the expansion

  lemma ExpandTwo(st: State, a: Port, b: Port, isOut: bool)
    ensures var (st1, ra) := ExpandPort(NET, st, a, isOut);
            var (st2, rb) := ExpandPort(NET, st1, b, isOut);
            ExpandAll(NET, st, [a, b], isOut) == (st2, ra + rb)
  {
    var (st1, ra) := ExpandPort(NET, st, a, isOut);
    var (st2, rb) := ExpandPort(NET, st1, b, isOut);
    assert [a, b][1..] == [b] && [b][1..] == [];
    assert ExpandAll(NET, st2, [], isOut) == (st2, []);
    assert ExpandAll(NET, st1, [b], isOut) == (st2, rb + []);
    assert rb + [] == rb;
  }

  /** A fresh end next to an element port and an open end. */
  lemma ExpandLeaf(st: State, k: Key, a: Port, b: Port)
    requires k in st && st[k] == End([a, b], Fresh)
    requires a.idx !in NET.tunnels
    requires b.idx in NET.tunnels && NET.Has(Key(b, k.isOut)) && Key(b, k.isOut) != k
    requires Get(st, Key(b, k.isOut)).mark.Open?
    ensures Expand(NET, st, k) == (st[k := End([a], Done)], [a])
  {
    var st1 := st[k := End([], Open)];
    ExpandTwo(st1, a, b, k.isOut);
    assert [a] + [] == [a];
    assert st1[k := End([a], Done)] == st[k := End([a], Done)];
  }

  /** A fresh end next to an open end and to one that yields r. */
  lemma ExpandMiddle(st: State, k: Key, a: Port, b: Port, st': State, r: Port)
    requires k in st && st[k] == End([a, b], Fresh)
    requires a.idx in NET.tunnels && NET.Has(Key(a, k.isOut)) && Key(a, k.isOut) != k
    requires b.idx in NET.tunnels && NET.Has(Key(b, k.isOut))
    requires Get(st, Key(a, k.isOut)).mark.Open?
    requires Expand(NET, st[k := End([], Open)], Key(b, k.isOut)) == (st', [r])
    ensures Expand(NET, st, k) == (st'[k := End([r], Done)], [r])
  {
    var st1 := st[k := End([], Open)];
    ExpandTwo(st1, a, b, k.isOut);
    assert [] + [r] == [r];
  }

  /** A fresh end next to an element port and to an end that yields r. */
  lemma ExpandTop(st: State, k: Key, a: Port, b: Port, st': State, r: Port)
    requires k in st && st[k] == End([a, b], Fresh)
    requires a.idx !in NET.tunnels
    requires b.idx in NET.tunnels && NET.Has(Key(b, k.isOut))
    requires Expand(NET, st[k := End([], Open)], Key(b, k.isOut)) == (st', [r])
    ensures Expand(NET, st, k) == (st'[k := End([a, r], Done)], [a, r])
  {
    var st1 := st[k := End([], Open)];
    ExpandTwo(st1, a, b, k.isOut);
    assert [a] + [r] == [a, r];
  }

  /** Three fresh ends in a cycle, entered at k1: the other two miss what k1 has next to it. */
  lemma ExpandCycle(st: State, isOut: bool, p1: Port, p2: Port, p3: Port, e1: Port, e3: Port)
    requires var k1, k2, k3 := Key(p1, isOut), Key(p2, isOut), Key(p3, isOut);
             && k1 in st && k2 in st && k3 in st
             && st[k1] == End([e1, p2], Fresh)
             && st[k2] == End([p1, p3], Fresh)
             && st[k3] == End([e3, p2], Fresh)
             && NET.Has(k1) && NET.Has(k2) && NET.Has(k3)
    requires p1.idx in NET.tunnels && p2.idx in NET.tunnels && p3.idx in NET.tunnels
    requires e1.idx !in NET.tunnels && e3.idx !in NET.tunnels
    requires p1 != p2 && p2 != p3 && p1 != p3
    ensures Expand(NET, st, Key(p1, isOut))
            == (st[Key(p1, isOut) := End([e1, e3], Done)][Key(p2, isOut) := End([e3], Done)]
                  [Key(p3, isOut) := End([e3], Done)],
                [e1, e3])
  {
    hide Expand, NET;
    var k1, k2, k3 := Key(p1, isOut), Key(p2, isOut), Key(p3, isOut);
    var st1 := st[k1 := End([], Open)];
    var st2 := st1[k2 := End([], Open)];
    ExpandLeaf(st2, k3, e3, p2);
    var st3 := st2[k3 := End([e3], Done)];
    ExpandMiddle(st1, k2, p1, p3, st3, e3);
    var st4 := st3[k2 := End([e3], Done)];
    ExpandTop(st, k1, e1, p2, st4, e3);
    assert st4[k1 := End([e1, e3], Done)]
        == st[k1 := End([e1, e3], Done)][k2 := End([e3], Done)][k3 := End([e3], Done)];
  }

  // ---------------------------------------------------------------- the lost chain

  /** The ends after the first two connections have been expanded. */
  ghost predicate Settled(st: State)
  {
    && Get(st, Key(IN1, false)) == End([SIDE_OUT], Done)
    && Get(st, Key(IN2, false)) == End([SIDE_OUT], Done)
    && Get(st, Key(IN3, false)) == End([DST, SIDE_OUT], Done)
    && Get(st, Key(OUT1, true)) == End([SRC, SIDE_IN], Done)
    && Get(st, Key(OUT2, true)) == End([SIDE_IN], Done)
    && Get(st, Key(OUT3, true)) == End([SIDE_IN], Done)
  }

  lemma FreshEnd(st: State, k: Key, ps: seq<Port>)
    requires FirstCut(NET, CONNS, st) && Direct(NET, CONNS, k) == ps != []
    ensures k in st && st[k] == End(ps, Fresh)
  {
    assert Get(st, k) == End(Direct(NET, CONNS, k), Fresh);
  }

  /** The ends before any connection has been expanded. */
  ghost predicate Unsettled(st: State)
  {
    && Key(IN1, false) in st && st[Key(IN1, false)] == End([SIDE_OUT, IN2], Fresh)
    && Key(IN2, false) in st && st[Key(IN2, false)] == End([IN3, IN1], Fresh)
    && Key(IN3, false) in st && st[Key(IN3, false)] == End([DST, IN2], Fresh)
    && Key(OUT1, true) in st && st[Key(OUT1, true)] == End([SRC, OUT2], Fresh)
    && Key(OUT2, true) in st && st[Key(OUT2, true)] == End([OUT1, OUT3], Fresh)
    && Key(OUT3, true) in st && st[Key(OUT3, true)] == End([SIDE_IN, OUT2], Fresh)
  }

  lemma StartsUnsettled(st: State)
    requires FirstCut(NET, CONNS, st)
    ensures Unsettled(st)
  {
    hide Direct, FirstCut;
    DirectIn1();
    DirectIn2();
    DirectIn3();
    DirectOut1();
    DirectOut2();
    DirectOut3();
    FreshEnd(st, Key(IN1, false), [SIDE_OUT, IN2]);
    FreshEnd(st, Key(IN2, false), [IN3, IN1]);
    FreshEnd(st, Key(IN3, false), [DST, IN2]);
    FreshEnd(st, Key(OUT1, true), [SRC, OUT2]);
    FreshEnd(st, Key(OUT2, true), [OUT1, OUT3]);
    FreshEnd(st, Key(OUT3, true), [SIDE_IN, OUT2]);
  }

  lemma PortOfElement(st: State, p: Port, isOut: bool)
    requires p.idx !in NET.tunnels
    ensures ExpandPort(NET, st, p, isOut) == (st, [p])
  {
  }

  lemma PortOfTunnel(st: State, p: Port, isOut: bool)
    requires p.idx in NET.tunnels && NET.Has(Key(p, isOut))
    ensures ExpandPort(NET, st, p, isOut) == Expand(NET, st, Key(p, isOut))
  {
  }

  lemma FirstTwo(st: State)
    requires FirstCut(NET, CONNS, st)
    ensures var (st', added) := Flatten(NET, st, CONNS, 2);
            Settled(st') && Conn(DST, SRC) !in added
  {
    hide FirstCut, Expand, ExpandPort, Product;
    StartsUnsettled(st);
    ExpandCycle(st, false, IN3, IN2, IN1, DST, SIDE_OUT);
    PortOfElement(st, SIDE_IN, true);
    PortOfTunnel(st, IN3, false);
    var (st1, added1) := Through(NET, st, CONNS[0]);
    ProductMember(NET, [SIDE_IN], [DST, SIDE_OUT], Conn(DST, SRC));
    ExpandCycle(st1, true, OUT1, OUT2, OUT3, SRC, SIDE_IN);
    PortOfTunnel(st1, OUT1, true);
    PortOfElement(Expand(NET, st1, Key(OUT1, true)).0, SIDE_OUT, false);
    var (st2, added2) := Through(NET, st1, CONNS[1]);
    ProductMember(NET, [SRC, SIDE_IN], [SIDE_OUT], Conn(DST, SRC));
    assert Flatten(NET, st, CONNS, 0) == (st, []);
    assert Flatten(NET, st, CONNS, 1) == (st1, [] + added1);
    assert Flatten(NET, st, CONNS, 2) == (st2, [] + added1 + added2);
  }

  lemma DoneEnd(st: State, p: Port, isOut: bool, ps: seq<Port>)
    requires p.idx in NET.tunnels && NET.Has(Key(p, isOut)) && Get(st, Key(p, isOut)) == End(ps, Done)
    ensures ExpandPort(NET, st, p, isOut) == (st, ps)
  {
  }

  /** What a settled port expands to. */
  lemma SettledPorts(st: State)
    requires Settled(st)
    ensures ExpandPort(NET, st, IN1, false) == (st, [SIDE_OUT])
    ensures ExpandPort(NET, st, IN2, false) == (st, [SIDE_OUT])
    ensures ExpandPort(NET, st, IN3, false) == (st, [DST, SIDE_OUT])
    ensures ExpandPort(NET, st, OUT1, true) == (st, [SRC, SIDE_IN])
    ensures ExpandPort(NET, st, OUT2, true) == (st, [SIDE_IN])
    ensures ExpandPort(NET, st, OUT3, true) == (st, [SIDE_IN])
    ensures ExpandPort(NET, st, SRC, true) == (st, [SRC])
    ensures ExpandPort(NET, st, DST, false) == (st, [DST])
  {
    hide ExpandPort;
    DoneEnd(st, IN1, false, [SIDE_OUT]);
    DoneEnd(st, IN2, false, [SIDE_OUT]);
    DoneEnd(st, IN3, false, [DST, SIDE_OUT]);
    DoneEnd(st, OUT1, true, [SRC, SIDE_IN]);
    DoneEnd(st, OUT2, true, [SIDE_IN]);
    DoneEnd(st, OUT3, true, [SIDE_IN]);
    PortOfElement(st, SRC, true);
    PortOfElement(st, DST, false);
  }

  lemma Later(st: State, i: nat)
    requires 2 <= i < 8 && Settled(st)
    ensures var (st', added) := Through(NET, st, CONNS[i]);
            st' == st && Conn(DST, SRC) !in added
  {
    hide ExpandPort, Product, Settled;
    SettledPorts(st);
    var c := CONNS[i];
    assert c == Conn(IN1, SRC) || c == Conn(IN2, OUT1) || c == Conn(IN3, OUT2)
        || c == Conn(DST, OUT3) || c == Conn(IN2, OUT3) || c == Conn(IN1, OUT2);
    var (st1, fs) := ExpandPort(NET, st, CONNS[i].from, true);
    var (st2, ts) := ExpandPort(NET, st1, CONNS[i].to, false);
    ProductMember(NET, fs, ts, Conn(DST, SRC));
  }

  lemma {:induction false} NeverAdded(st: State, n: nat)
    requires FirstCut(NET, CONNS, st) && 2 <= n <= 8
    ensures var (st', added) := Flatten(NET, st, CONNS, n);
            Settled(st') && Conn(DST, SRC) !in added
  {
    if n == 2 {
      FirstTwo(st);
    } else {
      NeverAdded(st, n - 1);
      Later(Flatten(NET, st, CONNS, n - 1).0, n - 1);
    }
  }

  /** With a cycle of tunnels, a chain of four connections can be lost; so the bound of three
      connections and the absence of cycles are both needed. */
  lemma CycleLosesChain(st: State)
    requires FirstCut(NET, CONNS, st)
    ensures NET.Valid() && Joins(NET, CONNS, PATH, SRC, DST) && |PATH| == 4
    ensures !Emitted(NET, CONNS, st, Conn(DST, SRC))
  {
    hide Net.Valid, Joins, FirstCut, Flatten, Settled;
    NetIsValid();
    PathJoins();
    NeverAdded(st, 8);
    NotConnected();
  }

  lemma NotConnected()
    ensures Conn(DST, SRC) !in CONNS
  {
  }
}
