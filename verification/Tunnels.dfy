/** The expansion of compound elements' port tunnels in click/lib/lexer.cc: connections that enter
    a tunnel are carried through to the ports they really lead to. */
module Tunnels {
  import opened Common

  datatype Port = Port(idx: nat, port: nat)

  /** A connection; from is an output port and to an input port. */
  datatype Conn = Conn(to: Port, from: Port)
  {
    function Side(isOut: bool): (p: Port)
    {
      if isOut then from else to
    }
  }

  /** One end of a tunnel, as find_tunnel looks it up. */
  datatype Key = Key(port: Port, isOut: bool)

  /** TunnelEnd::_expanded: 0, 1 and 2. */
  datatype Mark = Fresh | Open | Done

  datatype End = End(correspond: seq<Port>, mark: Mark)

  /** What stays fixed while connections are expanded: which elements are tunnels, which elements
      the router has (the others have a negative router id), and the tunnels' declared ends. */
  datatype Net = Net(tunnels: set<nat>, elements: set<nat>, ends: map<(nat, bool), nat>)
  {
    /** Tunnels have ends that are each other's, on opposite sides; tunnels are no elements. */
    ghost predicate Valid()
    {
      && tunnels !! elements
      && (forall e :: e in ends ==> e.0 in tunnels)
      && (forall e :: e in ends ==> (ends[e], !e.1) in ends && ends[(ends[e], !e.1)] == e.0)
    }

    /** find_tunnel succeeds: an end was declared for the element, hence for each of its ports. */
    predicate Has(k: Key)
    {
      (k.port.idx, k.isOut) in ends
    }

    /** TunnelEnd::other: the same port number at the paired element. */
    function Other(k: Key): (o: Key)
      requires Has(k)
    {
      Key(Port(ends[(k.port.idx, k.isOut)], k.port.port), !k.isOut)
    }

    lemma OtherOfOther(k: Key)
      requires Valid() && Has(k)
      ensures Has(Other(k)) && Other(Other(k)) == k
      ensures k.port.idx in tunnels && k.port.idx !in elements
    {
    }
  }

  /** The tunnel ends made so far; an end not yet made is fresh and has nothing to correspond to. */
  type State = map<Key, End>

  function Get(st: State, k: Key): (e: End)
  {
    if k in st then st[k] else End([], Fresh)
  }

  function FreshKeys(st: State): (ks: set<Key>)
  {
    set k | k in st && st[k].mark.Fresh?
  }

  // ---------------------------------------------------------------- the first cut

  /** The ports connected to the far end of k, in the order of the connections. */
  function Direct(net: Net, conns: seq<Conn>, k: Key): (ps: seq<Port>)
  {
    if conns == [] then []
    else
      var c, before := conns[|conns| - 1], Direct(net, conns[..|conns| - 1], k);
      if net.Has(k) && c.Side(!k.isOut) == net.Other(k).port then before + [c.Side(k.isOut)] else before
  }

  /** Note connection c at the far end of the tunnel it touches on one side, if it touches one. */
  function Noted(net: Net, st: State, c: Conn, isOut: bool): (st': State)
  {
    var k := Key(c.Side(isOut), isOut);
    if k.port.idx !in net.elements && net.Has(k) then
      var o := net.Other(k);
      st[o := Get(st, o).(correspond := Get(st, o).correspond + [c.Side(!isOut)])]
    else st
  }

  /** Every end is fresh and lists the ports directly connected to its far end. */
  ghost predicate FirstCut(net: Net, conns: seq<Conn>, st: State)
  {
    forall k :: Get(st, k) == End(Direct(net, conns, k), Fresh)
  }

  /** Noting touches exactly the end whose far side the connection enters. */
  lemma NotedAt(net: Net, st: State, c: Conn, isOut: bool, k: Key)
    requires net.Valid()
    ensures Get(Noted(net, st, c, isOut), k)
            == if k.isOut != isOut && net.Has(k) && c.Side(!k.isOut) == net.Other(k).port
               then Get(st, k).(correspond := Get(st, k).correspond + [c.Side(k.isOut)])
               else Get(st, k)
  {
    hide Net.Valid;
    var n := Key(c.Side(isOut), isOut);
    if net.Has(n) {
      net.OtherOfOther(n);
    }
    if net.Has(k) {
      net.OtherOfOther(k);
    }
  }

  lemma NotedFirstCut(net: Net, conns: seq<Conn>, c: Conn, st: State)
    requires net.Valid() && FirstCut(net, conns, st)
    ensures FirstCut(net, conns + [c], Noted(net, Noted(net, st, c, false), c, true))
  {
    hide Noted;
    var st1 := Noted(net, st, c, false);
    assert (conns + [c])[..|conns|] == conns;
    forall k
      ensures Get(Noted(net, st1, c, true), k) == End(Direct(net, conns + [c], k), Fresh)
    {
      assert Get(st, k) == End(Direct(net, conns, k), Fresh);
      NotedAt(net, st, c, false, k);
      NotedAt(net, st1, c, true, k);
    }
  }

  // ---------------------------------------------------------------- expansion

  /** TunnelEnd::expand, returning what it appends. */
  function Expand(net: Net, st: State, k: Key): (r: (State, seq<Port>))
    ensures FreshKeys(r.0) <= FreshKeys(st)
    decreases |FreshKeys(st)|, 0, 0
  {
    var e := Get(st, k);
    if e.mark.Open? then (st, [])
    else if e.mark.Done? then (st, e.correspond)
    else if k !in st then
      assert FreshKeys(st[k := End([], Done)]) <= FreshKeys(st);
      (st[k := End([], Done)], [])
    else
      var st1 := st[k := End([], Open)];
      assert FreshKeys(st1) == FreshKeys(st) - {k};
      var (st2, ps) := ExpandAll(net, st1, e.correspond, k.isOut);
      assert FreshKeys(st2[k := End(ps, Done)]) <= FreshKeys(st2);
      (st2[k := End(ps, Done)], ps)
  }

  /** Lexer::expand_connection, returning what it appends. */
  function ExpandPort(net: Net, st: State, p: Port, isOut: bool): (r: (State, seq<Port>))
    ensures FreshKeys(r.0) <= FreshKeys(st)
    decreases |FreshKeys(st)|, 1, 0
  {
    if p.idx !in net.tunnels then (st, [p])
    else if net.Has(Key(p, isOut)) then Expand(net, st, Key(p, isOut))
    else (st, [])
  }

  function ExpandAll(net: Net, st: State, ps: seq<Port>, isOut: bool): (r: (State, seq<Port>))
    ensures FreshKeys(r.0) <= FreshKeys(st)
    decreases |FreshKeys(st)|, 2, |ps|
  {
    if ps == [] then (st, [])
    else
      var (st1, here) := ExpandPort(net, st, ps[0], isOut);
      SubsetSize(FreshKeys(st1), FreshKeys(st));
      var (st2, rest) := ExpandAll(net, st1, ps[1..], isOut);
      (st2, here + rest)
  }

  // ---------------------------------------------------------------- where a port leads

  /** Port p, through at most n tunnels, leads to the port r of an element. */
  ghost predicate Leads(net: Net, conns: seq<Conn>, p: Port, isOut: bool, r: Port, n: nat)
    decreases n
  {
    if p.idx !in net.tunnels then r == p
    else n > 0 && exists q :: q in Direct(net, conns, Key(p, isOut)) && Leads(net, conns, q, isOut, r, n - 1)
  }

  ghost predicate Reaches(net: Net, conns: seq<Conn>, p: Port, isOut: bool, r: Port)
  {
    exists n: nat :: Leads(net, conns, p, isOut, r, n)
  }

  /** Every way on from port p passes through at most n tunnels; no such n exists when p leads
      into a cycle of tunnels. */
  ghost predicate Bounded(net: Net, conns: seq<Conn>, p: Port, isOut: bool, n: nat)
    decreases n
  {
    p.idx in net.tunnels ==>
      n > 0 && forall q :: q in Direct(net, conns, Key(p, isOut)) ==> Bounded(net, conns, q, isOut, n - 1)
  }

  /** No cycle of tunnels can be reached from p. */
  ghost predicate Acyclic(net: Net, conns: seq<Conn>, p: Port, isOut: bool)
  {
    exists n: nat :: Bounded(net, conns, p, isOut, n)
  }

  lemma {:induction false} BoundedMore(net: Net, conns: seq<Conn>, p: Port, isOut: bool, n: nat)
    requires Bounded(net, conns, p, isOut, n)
    ensures Bounded(net, conns, p, isOut, n + 1)
    decreases n
  {
    if p.idx in net.tunnels {
      forall q | q in Direct(net, conns, Key(p, isOut))
        ensures Bounded(net, conns, q, isOut, n)
      {
        BoundedMore(net, conns, q, isOut, n - 1);
      }
    }
  }

  lemma ReachesStep(net: Net, conns: seq<Conn>, p: Port, isOut: bool, r: Port)
    requires p.idx in net.tunnels
    ensures Reaches(net, conns, p, isOut, r)
            <==> exists q :: q in Direct(net, conns, Key(p, isOut)) && Reaches(net, conns, q, isOut, r)
  {
    if Reaches(net, conns, p, isOut, r) {
      var n: nat :| Leads(net, conns, p, isOut, r, n);
      var q :| q in Direct(net, conns, Key(p, isOut)) && Leads(net, conns, q, isOut, r, n - 1);
      assert Reaches(net, conns, q, isOut, r);
    }
    if q :| q in Direct(net, conns, Key(p, isOut)) && Reaches(net, conns, q, isOut, r) {
      var n: nat :| Leads(net, conns, q, isOut, r, n);
      assert Leads(net, conns, p, isOut, r, n + 1);
    }
  }

  lemma AcyclicStep(net: Net, conns: seq<Conn>, p: Port, isOut: bool, q: Port)
    requires p.idx in net.tunnels && Acyclic(net, conns, p, isOut)
    requires q in Direct(net, conns, Key(p, isOut))
    ensures Acyclic(net, conns, q, isOut)
  {
    var n: nat :| Bounded(net, conns, p, isOut, n);
    assert Bounded(net, conns, q, isOut, n - 1);
  }

  // ---------------------------------------------------------------- what expansion keeps

  function OpenKeys(st: State): (ks: set<Key>)
  {
    set k | k in st && st[k].mark.Open?
  }

  /** All of ps are reached from p; and if no cycle is, nothing reached is missing from ps. */
  ghost predicate Answers(net: Net, conns: seq<Conn>, p: Port, isOut: bool, ps: seq<Port>)
  {
    && (forall r :: r in ps ==> Reaches(net, conns, p, isOut, r))
    && (Acyclic(net, conns, p, isOut) ==>
          forall r :: Reaches(net, conns, p, isOut, r) ==> r in ps)
  }

  /** The element ports next to the far end of k are never missing from ps. */
  ghost predicate Shallow(net: Net, conns: seq<Conn>, k: Key, ps: seq<Port>)
  {
    forall q :: q in Direct(net, conns, k) && q.idx !in net.tunnels ==> q in ps
  }

  /** Fresh ends still hold the first cut, finished ends an answer. */
  ghost predicate Inv(net: Net, conns: seq<Conn>, st: State)
  {
    forall k {:trigger Get(st, k)} ::
      && (Get(st, k).mark.Fresh? ==> Get(st, k).correspond == Direct(net, conns, k))
      && (Get(st, k).mark.Done? ==>
            && k.port.idx in net.tunnels
            && Answers(net, conns, k.port, k.isOut, Get(st, k).correspond)
            && Shallow(net, conns, k, Get(st, k).correspond))
  }

  /** Whatever end is open leads to p: a bound for the one is more than a bound for the other. */
  ghost predicate Guarded(net: Net, conns: seq<Conn>, st: State, p: Port, isOut: bool)
  {
    forall m, n: nat :: m in OpenKeys(st) && EndBounded(net, conns, m, n) ==>
      m.port.idx in net.tunnels && n > 0 && Bounded(net, conns, p, isOut, n - 1)
  }

  ghost predicate EndBounded(net: Net, conns: seq<Conn>, k: Key, n: nat)
  {
    Bounded(net, conns, k.port, k.isOut, n)
  }

  lemma {:induction false} OpenIsUnbounded(net: Net, conns: seq<Conn>, st: State, k: Key, n: nat)
    requires Guarded(net, conns, st, k.port, k.isOut) && k in OpenKeys(st)
    ensures !Bounded(net, conns, k.port, k.isOut, n)
  {
    hide Bounded;
    if EndBounded(net, conns, k, n) {
      assert n > 0 && Bounded(net, conns, k.port, k.isOut, n - 1);
      OpenIsUnbounded(net, conns, st, k, n - 1);
    }
  }

  lemma GuardedBelow(net: Net, conns: seq<Conn>, st: State, k: Key, q: Port)
    requires k.port.idx in net.tunnels
    requires Guarded(net, conns, st, k.port, k.isOut)
    requires q in Direct(net, conns, k)
    ensures Guarded(net, conns, st[k := End([], Open)], q, k.isOut)
  {
    var st1 := st[k := End([], Open)];
    forall m, n: nat | m in OpenKeys(st1) && EndBounded(net, conns, m, n)
      ensures m.port.idx in net.tunnels && n > 0 && Bounded(net, conns, q, k.isOut, n - 1)
    {
      if m != k {
        assert m in OpenKeys(st);
        assert Bounded(net, conns, k.port, k.isOut, n - 1);
        BoundedMore(net, conns, q, k.isOut, n - 2);
      }
    }
  }

  lemma {:induction false} ExpandAnswers(net: Net, conns: seq<Conn>, st: State, k: Key)
    requires k.port.idx in net.tunnels
    requires Inv(net, conns, st) && Guarded(net, conns, st, k.port, k.isOut)
    ensures var (st', ps) := Expand(net, st, k);
            && Inv(net, conns, st') && OpenKeys(st') == OpenKeys(st)
            && Answers(net, conns, k.port, k.isOut, ps)
            && (k !in OpenKeys(st) ==> Shallow(net, conns, k, ps))
    decreases |FreshKeys(st)|, 0, 0
  {
    var e := Get(st, k);
    if e.mark.Open? {
      forall n: nat
        ensures !Bounded(net, conns, k.port, k.isOut, n)
      {
        OpenIsUnbounded(net, conns, st, k, n);
      }
    } else if e.mark.Fresh? {
      if k !in st {
        assert Direct(net, conns, k) == [];
        NothingReached(net, conns, k);
        FinishKeeps(net, conns, st, st, k, []);
      } else {
        var st1 := st[k := End([], Open)];
        assert FreshKeys(st1) == FreshKeys(st) - {k};
        assert OpenKeys(st1) == OpenKeys(st) + {k};
        forall q | q in e.correspond
          ensures Guarded(net, conns, st1, q, k.isOut)
        {
          GuardedBelow(net, conns, st, k, q);
        }
        OpenKeeps(net, conns, st, k);
        ExpandAllAnswers(net, conns, st1, e.correspond, k.isOut);
        var (st2, ps) := ExpandAll(net, st1, e.correspond, k.isOut);
        AnswersTogether(net, conns, k, ps);
        FinishKeeps(net, conns, st, st2, k, ps);
      }
    }
  }

  lemma {:induction false} ExpandPortAnswers(net: Net, conns: seq<Conn>, st: State, p: Port, isOut: bool)
    requires Inv(net, conns, st) && Guarded(net, conns, st, p, isOut)
    ensures var (st', ps) := ExpandPort(net, st, p, isOut);
            && Inv(net, conns, st') && OpenKeys(st') == OpenKeys(st)
            && Answers(net, conns, p, isOut, ps)
            && (p.idx !in net.tunnels ==> p in ps)
            && (p.idx in net.tunnels && Key(p, isOut) !in OpenKeys(st) ==> Shallow(net, conns, Key(p, isOut), ps))
    decreases |FreshKeys(st)|, 1, 0
  {
    if p.idx !in net.tunnels {
      assert Leads(net, conns, p, isOut, p, 0);
    } else if net.Has(Key(p, isOut)) {
      ExpandAnswers(net, conns, st, Key(p, isOut));
    } else {
      DirectOfNone(net, conns, Key(p, isOut));
      NothingReached(net, conns, Key(p, isOut));
    }
  }

  /** The answers for all of ps, put together. */
  ghost predicate AllAnswer(net: Net, conns: seq<Conn>, ps: seq<Port>, isOut: bool, rs: seq<Port>)
  {
    && (forall r :: r in rs ==> exists q :: q in ps && Reaches(net, conns, q, isOut, r))
    && (forall q, r :: q in ps && Acyclic(net, conns, q, isOut) && Reaches(net, conns, q, isOut, r) ==> r in rs)
    && (forall q :: q in ps && q.idx !in net.tunnels ==> q in rs)
  }

  lemma {:induction false} ExpandAllAnswers(net: Net, conns: seq<Conn>, st: State, ps: seq<Port>, isOut: bool)
    requires Inv(net, conns, st)
    requires forall q :: q in ps ==> Guarded(net, conns, st, q, isOut)
    ensures var (st', rs) := ExpandAll(net, st, ps, isOut);
            && Inv(net, conns, st') && OpenKeys(st') == OpenKeys(st)
            && AllAnswer(net, conns, ps, isOut, rs)
    decreases |FreshKeys(st)|, 2, |ps|
  {
    if ps != [] {
      ExpandPortAnswers(net, conns, st, ps[0], isOut);
      var (st1, here) := ExpandPort(net, st, ps[0], isOut);
      SubsetSize(FreshKeys(st1), FreshKeys(st));
      forall q | q in ps[1..]
        ensures Guarded(net, conns, st1, q, isOut)
      {
        assert Guarded(net, conns, st, q, isOut);
      }
      ExpandAllAnswers(net, conns, st1, ps[1..], isOut);
      var (st2, rest) := ExpandAll(net, st1, ps[1..], isOut);
      AllAnswerMore(net, conns, ps, isOut, here, rest);
    }
  }

  lemma AllAnswerMore(net: Net, conns: seq<Conn>, ps: seq<Port>, isOut: bool, here: seq<Port>, rest: seq<Port>)
    requires ps != [] && Answers(net, conns, ps[0], isOut, here)
    requires ps[0].idx !in net.tunnels ==> ps[0] in here
    requires AllAnswer(net, conns, ps[1..], isOut, rest)
    ensures AllAnswer(net, conns, ps, isOut, here + rest)
  {
    assert ps == [ps[0]] + ps[1..];
  }

  lemma AnswersTogether(net: Net, conns: seq<Conn>, k: Key, rs: seq<Port>)
    requires k.port.idx in net.tunnels
    requires AllAnswer(net, conns, Direct(net, conns, k), k.isOut, rs)
    ensures Answers(net, conns, k.port, k.isOut, rs) && Shallow(net, conns, k, rs)
  {
    forall r
      ensures r in rs ==> Reaches(net, conns, k.port, k.isOut, r)
      ensures Acyclic(net, conns, k.port, k.isOut) && Reaches(net, conns, k.port, k.isOut, r) ==> r in rs
    {
      ReachesStep(net, conns, k.port, k.isOut, r);
      if Acyclic(net, conns, k.port, k.isOut) && Reaches(net, conns, k.port, k.isOut, r) {
        var q :| q in Direct(net, conns, k) && Reaches(net, conns, q, k.isOut, r);
        AcyclicStep(net, conns, k.port, k.isOut, q);
      }
    }
  }

  lemma DirectOfNone(net: Net, conns: seq<Conn>, k: Key)
    requires !net.Has(k)
    ensures Direct(net, conns, k) == []
  {
  }

  lemma NothingReached(net: Net, conns: seq<Conn>, k: Key)
    requires k.port.idx in net.tunnels && Direct(net, conns, k) == []
    ensures Answers(net, conns, k.port, k.isOut, []) && Shallow(net, conns, k, [])
  {
    forall r
      ensures !Reaches(net, conns, k.port, k.isOut, r)
    {
      ReachesStep(net, conns, k.port, k.isOut, r);
    }
  }

  lemma OpenKeeps(net: Net, conns: seq<Conn>, st: State, k: Key)
    requires Inv(net, conns, st)
    ensures Inv(net, conns, st[k := End([], Open)])
  {
    var st1 := st[k := End([], Open)];
    forall m
      ensures Get(st1, m) == if m == k then End([], Open) else Get(st, m)
    {
    }
  }

  lemma FinishKeeps(net: Net, conns: seq<Conn>, st: State, st2: State, k: Key, ps: seq<Port>)
    requires k.port.idx in net.tunnels && k !in OpenKeys(st)
    requires OpenKeys(st2) - {k} == OpenKeys(st) && Inv(net, conns, st2)
    requires Answers(net, conns, k.port, k.isOut, ps) && Shallow(net, conns, k, ps)
    ensures Inv(net, conns, st2[k := End(ps, Done)])
    ensures OpenKeys(st2[k := End(ps, Done)]) == OpenKeys(st)
  {
    var st3 := st2[k := End(ps, Done)];
    forall m
      ensures Get(st3, m) == if m == k then End(ps, Done) else Get(st2, m)
    {
    }
  }

  // ---------------------------------------------------------------- what expansion covers

  ghost predicate FreshIsDirect(net: Net, conns: seq<Conn>, st: State)
  {
    forall k {:trigger Get(st, k)} :: Get(st, k).mark.Fresh? ==> Get(st, k).correspond == Direct(net, conns, k)
  }

  /** Ends that are not fresh stay as they are, and so do those of the other side. */
  ghost predicate Keeps(st: State, st': State, isOut: bool)
  {
    forall k {:trigger Get(st, k)} {:trigger Get(st', k)} ::
      !Get(st, k).mark.Fresh? || k.isOut != isOut ==> Get(st', k) == Get(st, k)
  }

  /** From st to st', what there is behind port q has gone into rs or been looked at. */
  ghost predicate Taken(net: Net, st: State, st': State, q: Port, isOut: bool, rs: seq<Port>)
  {
    if q.idx !in net.tunnels then q in rs
    else
      net.Has(Key(q, isOut)) ==>
        && !Get(st', Key(q, isOut)).mark.Fresh?
        && (Get(st, Key(q, isOut)).mark.Done? ==> forall r :: r in Get(st, Key(q, isOut)).correspond ==> r in rs)
  }

  ghost predicate AllTaken(net: Net, st: State, st': State, ps: seq<Port>, isOut: bool, rs: seq<Port>)
  {
    forall q :: q in ps ==> Taken(net, st, st', q, isOut, rs)
  }

  /** Whatever is next to an end that got finished on the way is taken. */
  ghost predicate Covers(net: Net, conns: seq<Conn>, st: State, st': State, rs: seq<Port>)
  {
    forall k {:trigger Get(st', k)} :: Get(st, k).mark.Fresh? && !Get(st', k).mark.Fresh? ==>
      AllTaken(net, st, st', Direct(net, conns, k), k.isOut, rs)
  }

  ghost predicate Explored(net: Net, conns: seq<Conn>, st: State, st': State, isOut: bool, rs: seq<Port>)
  {
    FreshIsDirect(net, conns, st') && Keeps(st, st', isOut) && Covers(net, conns, st, st', rs)
  }

  lemma TakenLater(net: Net, st: State, st1: State, st2: State, q: Port, isOut: bool, rs: seq<Port>, more: seq<Port>, side: bool)
    requires Taken(net, st, st1, q, isOut, rs) && Keeps(st1, st2, side)
    requires forall r :: r in rs ==> r in more
    ensures Taken(net, st, st2, q, isOut, more)
  {
  }

  lemma TakenEarlier(net: Net, st: State, st1: State, st2: State, q: Port, isOut: bool, rs: seq<Port>, more: seq<Port>, side: bool)
    requires Taken(net, st1, st2, q, isOut, rs) && Keeps(st, st1, side)
    requires forall r :: r in rs ==> r in more
    ensures Taken(net, st, st2, q, isOut, more)
  {
  }

  lemma ExploredBoth(
    net: Net, conns: seq<Conn>, st: State, st1: State, st2: State, isOut: bool, here: seq<Port>, rest: seq<Port>)
    requires Explored(net, conns, st, st1, isOut, here) && Explored(net, conns, st1, st2, isOut, rest)
    ensures Explored(net, conns, st, st2, isOut, here + rest)
  {
    hide Taken;
    forall k | Get(st, k).mark.Fresh? && !Get(st2, k).mark.Fresh?
      ensures AllTaken(net, st, st2, Direct(net, conns, k), k.isOut, here + rest)
    {
      forall q | q in Direct(net, conns, k)
        ensures Taken(net, st, st2, q, k.isOut, here + rest)
      {
        if Get(st1, k).mark.Fresh? {
          assert AllTaken(net, st1, st2, Direct(net, conns, k), k.isOut, rest);
          TakenEarlier(net, st, st1, st2, q, k.isOut, rest, here + rest, isOut);
        } else {
          assert AllTaken(net, st, st1, Direct(net, conns, k), k.isOut, here);
          TakenLater(net, st, st1, st2, q, k.isOut, here, here + rest, isOut);
        }
      }
    }
  }

  /** Expanding one end. */
  lemma {:induction false} ExpandCovers(net: Net, conns: seq<Conn>, st: State, k: Key)
    requires FreshIsDirect(net, conns, st)
    ensures var (st', rs) := Expand(net, st, k);
            && Explored(net, conns, st, st', k.isOut, rs) && !Get(st', k).mark.Fresh?
            && (Get(st, k).mark.Done? ==> rs == Get(st, k).correspond)
    decreases |FreshKeys(st)|, 0, 0
  {
    var e := Get(st, k);
    if e.mark.Fresh? {
      if k !in st {
        LeafCovers(net, conns, st, k);
      } else {
        var st1 := st[k := End([], Open)];
        assert FreshKeys(st1) == FreshKeys(st) - {k};
        OpenIsDirect(net, conns, st, k);
        ExpandAllCovers(net, conns, st1, e.correspond, k.isOut);
        var (st2, rs) := ExpandAll(net, st1, e.correspond, k.isOut);
        FinishCovers(net, conns, st, st2, k, rs);
      }
    }
  }

  lemma OpenIsDirect(net: Net, conns: seq<Conn>, st: State, k: Key)
    requires FreshIsDirect(net, conns, st)
    ensures FreshIsDirect(net, conns, st[k := End([], Open)])
  {
    var st1 := st[k := End([], Open)];
    forall m
      ensures Get(st1, m) == if m == k then End([], Open) else Get(st, m)
    {
    }
  }

  lemma LeafCovers(net: Net, conns: seq<Conn>, st: State, k: Key)
    requires FreshIsDirect(net, conns, st) && k !in st
    ensures Explored(net, conns, st, st[k := End([], Done)], k.isOut, [])
  {
    hide Taken;
    var st' := st[k := End([], Done)];
    assert Direct(net, conns, k) == Get(st, k).correspond == [];
    forall m
      ensures Get(st', m) == if m == k then End([], Done) else Get(st, m)
    {
    }
  }

  lemma FinishCovers(net: Net, conns: seq<Conn>, st: State, st2: State, k: Key, rs: seq<Port>)
    requires FreshIsDirect(net, conns, st) && k in st && st[k].mark.Fresh?
    requires Explored(net, conns, st[k := End([], Open)], st2, k.isOut, rs)
    requires AllTaken(net, st[k := End([], Open)], st2, Direct(net, conns, k), k.isOut, rs)
    ensures Explored(net, conns, st, st2[k := End(rs, Done)], k.isOut, rs)
  {
    hide Direct;
    var st1, st3 := st[k := End([], Open)], st2[k := End(rs, Done)];
    forall m
      ensures Get(st1, m) == if m == k then End([], Open) else Get(st, m)
      ensures Get(st3, m) == if m == k then End(rs, Done) else Get(st2, m)
    {
    }
    forall m | Get(st, m).mark.Fresh? && !Get(st3, m).mark.Fresh?
      ensures AllTaken(net, st, st3, Direct(net, conns, m), m.isOut, rs)
    {
      assert AllTaken(net, st1, st2, Direct(net, conns, m), m.isOut, rs);
    }
  }

  lemma {:induction false} ExpandPortCovers(net: Net, conns: seq<Conn>, st: State, p: Port, isOut: bool)
    requires FreshIsDirect(net, conns, st)
    ensures var (st', rs) := ExpandPort(net, st, p, isOut);
            Explored(net, conns, st, st', isOut, rs) && Taken(net, st, st', p, isOut, rs)
    decreases |FreshKeys(st)|, 1, 0
  {
    if p.idx in net.tunnels && net.Has(Key(p, isOut)) {
      ExpandCovers(net, conns, st, Key(p, isOut));
    }
  }

  lemma {:induction false} ExpandAllCovers(net: Net, conns: seq<Conn>, st: State, ps: seq<Port>, isOut: bool)
    requires FreshIsDirect(net, conns, st)
    ensures var (st', rs) := ExpandAll(net, st, ps, isOut);
            Explored(net, conns, st, st', isOut, rs) && AllTaken(net, st, st', ps, isOut, rs)
    decreases |FreshKeys(st)|, 2, |ps|
  {
    if ps != [] {
      ExpandPortCovers(net, conns, st, ps[0], isOut);
      var (st1, here) := ExpandPort(net, st, ps[0], isOut);
      SubsetSize(FreshKeys(st1), FreshKeys(st));
      ExpandAllCovers(net, conns, st1, ps[1..], isOut);
      var (st2, rest) := ExpandAll(net, st1, ps[1..], isOut);
      ExploredBoth(net, conns, st, st1, st2, isOut, here, rest);
      AllTakenMore(net, st, st1, st2, ps, isOut, here, rest);
    }
  }

  lemma AllTakenMore(
    net: Net, st: State, st1: State, st2: State, ps: seq<Port>, isOut: bool, here: seq<Port>, rest: seq<Port>)
    requires ps != [] && Taken(net, st, st1, ps[0], isOut, here) && AllTaken(net, st1, st2, ps[1..], isOut, rest)
    requires Keeps(st, st1, isOut) && Keeps(st1, st2, isOut)
    ensures AllTaken(net, st, st2, ps, isOut, here + rest)
  {
    hide Taken, Keeps;
    assert ps == [ps[0]] + ps[1..];
    TakenLater(net, st, st1, st2, ps[0], isOut, here, here + rest, isOut);
    forall q | q in ps[1..]
      ensures Taken(net, st, st2, q, isOut, here + rest)
    {
      TakenEarlier(net, st, st1, st2, q, isOut, rest, here + rest, isOut);
    }
  }

  // ---------------------------------------------------------------- complete expansions

  /** Nothing that end k leads to is missing from ps. */
  ghost predicate HoldsAll(net: Net, conns: seq<Conn>, k: Key, ps: seq<Port>)
  {
    forall r :: Reaches(net, conns, k.port, k.isOut, r) ==> r in ps
  }

  /** Ends closed under going on, none open, and none finished with something missing. */
  ghost predicate Untroubled(net: Net, conns: seq<Conn>, st: State, ks: iset<Key>)
  {
    forall k {:trigger Get(st, k)} :: k in ks ==>
      && k.port.idx in net.tunnels
      && (forall q :: q in Direct(net, conns, k) && q.idx in net.tunnels ==> Key(q, k.isOut) in ks)
      && !Get(st, k).mark.Open?
      && (Get(st, k).mark.Done? ==> HoldsAll(net, conns, k, Get(st, k).correspond))
  }

  lemma {:induction false} CoveredIsReached(
    net: Net, conns: seq<Conn>, st: State, st': State, ks: iset<Key>, rs: seq<Port>, k: Key, r: Port, n: nat)
    requires Untroubled(net, conns, st, ks) && Covers(net, conns, st, st', rs)
    requires k in ks && Get(st, k).mark.Fresh? && !Get(st', k).mark.Fresh?
    requires Leads(net, conns, k.port, k.isOut, r, n)
    ensures r in rs
    decreases n
  {
    hide Covers;
    var q :| q in Direct(net, conns, k) && Leads(net, conns, q, k.isOut, r, n - 1);
    CoversAt(net, conns, st, st', rs, k, q);
    if q.idx in net.tunnels {
      var m := Key(q, k.isOut);
      if !net.Has(m) {
        DirectOfNone(net, conns, m);
      } else if Get(st, m).mark.Fresh? {
        CoveredIsReached(net, conns, st, st', ks, rs, m, r, n - 1);
      } else {
        assert Reaches(net, conns, q, k.isOut, r);
        assert r in Get(st, m).correspond;
      }
    }
  }

  lemma CoversAt(net: Net, conns: seq<Conn>, st: State, st': State, rs: seq<Port>, k: Key, q: Port)
    requires Covers(net, conns, st, st', rs) && Get(st, k).mark.Fresh? && !Get(st', k).mark.Fresh?
    requires q in Direct(net, conns, k)
    ensures Taken(net, st, st', q, k.isOut, rs)
  {
  }

  /** With no end open, and no finished end lacking anything, an expansion finds everything, whatever
      cycles there are. */
  lemma ExpandHoldsAll(net: Net, conns: seq<Conn>, st: State, k: Key, ks: iset<Key>)
    requires FreshIsDirect(net, conns, st) && Untroubled(net, conns, st, ks) && k in ks
    ensures HoldsAll(net, conns, k, Expand(net, st, k).1)
  {
    hide Untroubled, FreshIsDirect, Expand, Covers, Keeps;
    ExpandCovers(net, conns, st, k);
    var (st', rs) := Expand(net, st, k);
    UntroubledAt(net, conns, st, ks, k);
    if Get(st, k).mark.Fresh? {
      forall r | Reaches(net, conns, k.port, k.isOut, r)
        ensures r in rs
      {
        var n: nat :| Leads(net, conns, k.port, k.isOut, r, n);
        CoveredIsReached(net, conns, st, st', ks, rs, k, r, n);
      }
    }
  }

  lemma UntroubledAt(net: Net, conns: seq<Conn>, st: State, ks: iset<Key>, k: Key)
    requires Untroubled(net, conns, st, ks) && k in ks
    ensures k.port.idx in net.tunnels && !Get(st, k).mark.Open?
    ensures Get(st, k).mark.Done? ==> HoldsAll(net, conns, k, Get(st, k).correspond)
  {
  }

  // ---------------------------------------------------------------- chains of connections

  /** Connections of conns, each entering a tunnel that the next one leaves. */
  ghost predicate Chain(net: Net, conns: seq<Conn>, path: seq<Conn>)
  {
    && path != []
    && (forall i :: 0 <= i < |path| ==> path[i] in conns)
    && (forall i :: 0 <= i < |path| - 1 ==> Continues(net, path[i], path[i + 1]))
  }

  /** What c brings into a tunnel leaves it with d: at the paired element, by the same port number. */
  predicate Continues(net: Net, c: Conn, d: Conn)
  {
    (c.to.idx, false) in net.ends && net.ends[(c.to.idx, false)] == d.from.idx && c.to.port == d.from.port
  }

  /** A chain takes packets from element port f to element port t. */
  ghost predicate Joins(net: Net, conns: seq<Conn>, path: seq<Conn>, f: Port, t: Port)
  {
    && Chain(net, conns, path)
    && f.idx in net.elements && t.idx in net.elements
    && path[0].from == f && path[|path| - 1].to == t
  }

  lemma {:induction false} DirectMember(net: Net, conns: seq<Conn>, k: Key, q: Port)
    ensures q in Direct(net, conns, k)
            <==> exists c :: c in conns && net.Has(k) && c.Side(!k.isOut) == net.Other(k).port
                             && c.Side(k.isOut) == q
  {
    if conns != [] {
      DirectMember(net, conns[..|conns| - 1], k, q);
      assert conns == conns[..|conns| - 1] + [conns[|conns| - 1]];
    }
  }

  lemma {:induction false} ForwardChain(net: Net, conns: seq<Conn>, c: Conn, t: Port, n: nat)
    returns (path: seq<Conn>)
    requires c in conns && Leads(net, conns, c.to, false, t, n)
    ensures Chain(net, conns, path) && path[0] == c && path[|path| - 1].to == t
    decreases n
  {
    if c.to.idx !in net.tunnels {
      path := [c];
    } else {
      var k := Key(c.to, false);
      var q :| q in Direct(net, conns, k) && Leads(net, conns, q, false, t, n - 1);
      DirectMember(net, conns, k, q);
      var d :| d in conns && net.Has(k) && d.from == net.Other(k).port && d.to == q;
      var rest := ForwardChain(net, conns, d, t, n - 1);
      path := [c] + rest;
    }
  }

  lemma {:induction false} BackwardChain(net: Net, conns: seq<Conn>, c: Conn, f: Port, n: nat)
    returns (path: seq<Conn>)
    requires net.Valid() && c in conns && Leads(net, conns, c.from, true, f, n)
    ensures Chain(net, conns, path) && path[0].from == f && path[|path| - 1] == c
    decreases n
  {
    hide Net.Valid;
    if c.from.idx !in net.tunnels {
      path := [c];
    } else {
      var k := Key(c.from, true);
      var q :| q in Direct(net, conns, k) && Leads(net, conns, q, true, f, n - 1);
      DirectMember(net, conns, k, q);
      var d :| d in conns && net.Has(k) && d.to == net.Other(k).port && d.from == q;
      net.OtherOfOther(k);
      assert Continues(net, d, c);
      var rest := BackwardChain(net, conns, d, f, n - 1);
      path := rest + [c];
    }
  }

  lemma {:induction false} ChainForward(net: Net, conns: seq<Conn>, path: seq<Conn>, i: nat)
    requires net.Valid() && Chain(net, conns, path) && i < |path|
    requires path[|path| - 1].to.idx !in net.tunnels
    ensures Leads(net, conns, path[i].to, false, path[|path| - 1].to, |path| - 1 - i)
    ensures i + 2 == |path| ==> path[i + 1].to in Direct(net, conns, Key(path[i].to, false))
    decreases |path| - i
  {
    hide Net.Valid;
    if i < |path| - 1 {
      ChainForward(net, conns, path, i + 1);
      assert Continues(net, path[i], path[i + 1]);
      DirectMember(net, conns, Key(path[i].to, false), path[i + 1].to);
      net.OtherOfOther(Key(path[i].to, false));
    }
  }

  lemma {:induction false} ChainBackward(net: Net, conns: seq<Conn>, path: seq<Conn>, i: nat)
    requires net.Valid() && Chain(net, conns, path) && i < |path|
    requires path[0].from.idx !in net.tunnels
    ensures Leads(net, conns, path[i].from, true, path[0].from, i)
    ensures i == 1 ==> path[0].from in Direct(net, conns, Key(path[i].from, true))
    decreases i
  {
    hide Net.Valid;
    if i > 0 {
      ChainBackward(net, conns, path, i - 1);
      assert Continues(net, path[i - 1], path[i]);
      var k := Key(path[i - 1].to, false);
      net.OtherOfOther(k);
      assert net.Other(k) == Key(path[i].from, true);
      net.OtherOfOther(Key(path[i].from, true));
      DirectMember(net, conns, Key(path[i].from, true), path[i - 1].from);
    }
  }

  // ---------------------------------------------------------------- connections through tunnels

  /** All pairs of element ports, one from each list. */
  function Product(net: Net, fs: seq<Port>, ts: seq<Port>): (cs: seq<Conn>)
  {
    if fs == [] then []
    else (if fs[0].idx in net.elements then Row(net, fs[0], ts) else []) + Product(net, fs[1..], ts)
  }

  function Row(net: Net, f: Port, ts: seq<Port>): (cs: seq<Conn>)
    ensures forall c :: c in cs <==> c.from == f && c.to in ts && c.to.idx in net.elements
  {
    if ts == [] then []
    else
      assert ts == [ts[0]] + ts[1..];
      (if ts[0].idx in net.elements then [Conn(ts[0], f)] else []) + Row(net, f, ts[1..])
  }

  lemma RowStep(net: Net, f: Port, ts: seq<Port>, j: nat)
    requires j < |ts|
    ensures var rest := Row(net, f, ts[j + 1..]);
            Row(net, f, ts[j..]) == if ts[j].idx in net.elements then [Conn(ts[j], f)] + rest else rest
  {
    assert ts[j..][1..] == ts[j + 1..];
  }

  lemma RowOfNone(net: Net, f: Port)
    ensures Row(net, f, []) == []
  {
  }

  lemma {:induction false} ProductMember(net: Net, fs: seq<Port>, ts: seq<Port>, c: Conn)
    ensures c in Product(net, fs, ts)
            <==> c.from in fs && c.to in ts && c.from.idx in net.elements && c.to.idx in net.elements
  {
    if fs != [] {
      ProductMember(net, fs[1..], ts, c);
      assert fs == [fs[0]] + fs[1..];
    }
  }

  /** add_router_connections for one connection: what it adds. */
  function Through(net: Net, st: State, c: Conn): (r: (State, seq<Conn>))
  {
    var (st1, fs) := ExpandPort(net, st, c.from, true);
    var (st2, ts) := ExpandPort(net, st1, c.to, false);
    (st2, Product(net, fs, ts))
  }

  predicate Plain(net: Net, c: Conn)
  {
    c.from.idx in net.elements && c.to.idx in net.elements
  }

  /** create_router's second pass over the first n connections: what it adds. */
  function Flatten(net: Net, st: State, conns: seq<Conn>, n: nat): (r: (State, seq<Conn>))
    requires n <= |conns|
  {
    if n == 0 then (st, [])
    else
      var (st1, added) := Flatten(net, st, conns, n - 1);
      if Plain(net, conns[n - 1]) then (st1, added)
      else
        var (st2, more) := Through(net, st1, conns[n - 1]);
        (st2, added + more)
  }

  /** d continues c on both sides to element ports. */
  ghost predicate Carried(net: Net, conns: seq<Conn>, c: Conn, d: Conn)
  {
    && Plain(net, d)
    && Reaches(net, conns, c.from, true, d.from) && Reaches(net, conns, c.to, false, d.to)
  }

  /** d continues c in a way that is never missed. */
  ghost predicate Near(net: Net, conns: seq<Conn>, c: Conn, d: Conn)
  {
    Plain(net, d) && NearFrom(net, conns, c, d.from) && NearTo(net, conns, c, d.to)
  }

  /** f is found behind c's output side: right there, next to the tunnel, or with no cycle around. */
  ghost predicate NearFrom(net: Net, conns: seq<Conn>, c: Conn, f: Port)
  {
    || f == c.from
    || (c.from.idx in net.tunnels && f in Direct(net, conns, Key(c.from, true)))
    || (Acyclic(net, conns, c.from, true) && Reaches(net, conns, c.from, true, f))
  }

  ghost predicate NearTo(net: Net, conns: seq<Conn>, c: Conn, t: Port)
  {
    || t == c.to
    || (c.to.idx in net.tunnels && t in Direct(net, conns, Key(c.to, false)))
    || (Acyclic(net, conns, c.to, false) && Reaches(net, conns, c.to, false, t))
  }

  lemma ThroughCarries(net: Net, conns: seq<Conn>, st: State, c: Conn)
    requires net.Valid() && Inv(net, conns, st) && OpenKeys(st) == {}
    ensures var (st', added) := Through(net, st, c);
            && Inv(net, conns, st') && OpenKeys(st') == {}
            && (forall d :: d in added ==> Carried(net, conns, c, d))
            && (forall d :: Near(net, conns, c, d) ==> d in added)
  {
    ExpandPortAnswers(net, conns, st, c.from, true);
    var (st1, fs) := ExpandPort(net, st, c.from, true);
    ExpandPortAnswers(net, conns, st1, c.to, false);
    var (st2, ts) := ExpandPort(net, st1, c.to, false);
    forall d
      ensures d in Product(net, fs, ts) <==> d.from in fs && d.to in ts && Plain(net, d)
    {
      ProductMember(net, fs, ts, d);
    }
  }

  /** What the second pass has added after n connections. */
  ghost predicate Added(net: Net, conns: seq<Conn>, n: nat, added: seq<Conn>)
    requires n <= |conns|
  {
    && (forall d :: d in added ==> exists i :: 0 <= i < n && Carried(net, conns, conns[i], d))
    && (forall d, i :: 0 <= i < n && !Plain(net, conns[i]) && Near(net, conns, conns[i], d) ==> d in added)
  }

  lemma FirstCutInv(net: Net, conns: seq<Conn>, st: State)
    requires FirstCut(net, conns, st)
    ensures Inv(net, conns, st) && OpenKeys(st) == {}
  {
    forall k
      ensures Get(st, k) == End(Direct(net, conns, k), Fresh)
    {
    }
    assert forall k :: k in st ==> Get(st, k).mark.Fresh?;
  }

  /** The second pass as a whole. */
  lemma {:induction false} FlattenAdds(net: Net, conns: seq<Conn>, st: State, n: nat)
    requires net.Valid() && FirstCut(net, conns, st) && n <= |conns|
    ensures var (st', added) := Flatten(net, st, conns, n);
            Inv(net, conns, st') && OpenKeys(st') == {} && Added(net, conns, n, added)
  {
    hide Inv, FirstCut, Through, Carried, Near, Net.Valid;
    if n == 0 {
      FirstCutInv(net, conns, st);
    } else {
      FlattenAdds(net, conns, st, n - 1);
      var (st1, added) := Flatten(net, st, conns, n - 1);
      if !Plain(net, conns[n - 1]) {
        ThroughCarries(net, conns, st1, conns[n - 1]);
      }
    }
  }

  // ---------------------------------------------------------------- main results

  /** A connection that create_router hands to the router: an original or added one between
      elements. */
  ghost predicate Emitted(net: Net, conns: seq<Conn>, st: State, d: Conn)
  {
    Plain(net, d) && (d in conns || d in Flatten(net, st, conns, |conns|).1)
  }

  lemma ChainsMeet(net: Net, conns: seq<Conn>, before: seq<Conn>, after: seq<Conn>)
    requires Chain(net, conns, before) && Chain(net, conns, after)
    requires before[|before| - 1] == after[0]
    ensures Chain(net, conns, before + after[1..])
  {
    var path := before + after[1..];
    forall i | 0 <= i < |path| - 1
      ensures Continues(net, path[i], path[i + 1])
    {
      if i >= |before| - 1 {
        var j := i - (|before| - 1);
        assert path[i] == after[j] && path[i + 1] == after[j + 1];
      }
    }
  }

  /** Everything emitted is a chain of the given connections. */
  lemma EmittedIsJoined(net: Net, conns: seq<Conn>, st: State, d: Conn) returns (path: seq<Conn>)
    requires net.Valid() && FirstCut(net, conns, st) && Emitted(net, conns, st, d)
    ensures Joins(net, conns, path, d.from, d.to)
  {
    if d in conns {
      path := [d];
    } else {
      FlattenAdds(net, conns, st, |conns|);
      var i :| 0 <= i < |conns| && Carried(net, conns, conns[i], d);
      var m: nat :| Leads(net, conns, conns[i].from, true, d.from, m);
      var n: nat :| Leads(net, conns, conns[i].to, false, d.to, n);
      var before := BackwardChain(net, conns, conns[i], d.from, m);
      var after := ForwardChain(net, conns, conns[i], d.to, n);
      ChainsMeet(net, conns, before, after);
      path := before + after[1..];
    }
  }

  /** A chain around whose i-th connection there is no cycle, on either side, is emitted. */
  lemma JoinedIsEmitted(net: Net, conns: seq<Conn>, st: State, path: seq<Conn>, f: Port, t: Port, i: nat)
    requires net.Valid() && FirstCut(net, conns, st)
    requires Joins(net, conns, path, f, t) && i < |path|
    requires Acyclic(net, conns, path[i].from, true) && Acyclic(net, conns, path[i].to, false)
    ensures Emitted(net, conns, st, Conn(t, f))
  {
    var d := Conn(t, f);
    if |path| == 1 {
      assert path[0] == d;
    } else {
      ChainForward(net, conns, path, i);
      ChainBackward(net, conns, path, i);
      ChainNotPlain(net, conns, path, i);
      assert Near(net, conns, path[i], d);
      FlattenAdds(net, conns, st, |conns|);
      var j :| 0 <= j < |conns| && conns[j] == path[i];
    }
  }

  lemma ChainNotPlain(net: Net, conns: seq<Conn>, path: seq<Conn>, i: nat)
    requires net.Valid() && Chain(net, conns, path) && i < |path| && |path| > 1
    ensures !Plain(net, path[i])
  {
    if i < |path| - 1 {
      assert Continues(net, path[i], path[i + 1]);
      net.OtherOfOther(Key(path[i].to, false));
    } else {
      assert Continues(net, path[i - 1], path[i]);
      net.OtherOfOther(Key(path[i - 1].to, false));
      net.OtherOfOther(Key(path[i].from, true));
    }
  }

  /** Chains through at most two tunnels are emitted whatever cycles there are. */
  lemma ShortIsEmitted(net: Net, conns: seq<Conn>, st: State, path: seq<Conn>, f: Port, t: Port)
    requires net.Valid() && FirstCut(net, conns, st)
    requires Joins(net, conns, path, f, t) && |path| <= 3
    ensures Emitted(net, conns, st, Conn(t, f))
  {
    var d := Conn(t, f);
    if |path| == 1 {
      assert path[0] == d;
    } else {
      var i := |path| - 2;
      ChainForward(net, conns, path, i);
      ChainBackward(net, conns, path, i);
      ChainNotPlain(net, conns, path, i);
      assert Continues(net, path[i], path[i + 1]);
      net.OtherOfOther(Key(path[i].to, false));
      if i == 1 {
        assert Continues(net, path[0], path[1]);
        net.OtherOfOther(Key(path[0].to, false));
        net.OtherOfOther(Key(path[1].from, true));
      }
      assert Near(net, conns, path[i], d);
      FlattenAdds(net, conns, st, |conns|);
      var j :| 0 <= j < |conns| && conns[j] == path[i];
    }
  }

  /** No end of one side has been expanded yet. */
  ghost predicate SideIsFresh(st: State, isOut: bool)
  {
    forall k: Key {:trigger Get(st, k)} :: k.isOut == isOut ==> Get(st, k).mark.Fresh?
  }

  lemma FirstExpansion(net: Net, conns: seq<Conn>, st: State, p: Port, isOut: bool, r: Port)
    requires FreshIsDirect(net, conns, st) && SideIsFresh(st, isOut) && Reaches(net, conns, p, isOut, r)
    ensures r in ExpandPort(net, st, p, isOut).1
  {
    hide Direct, Expand, FreshIsDirect;
    var k := Key(p, isOut);
    if p.idx !in net.tunnels {
      var n: nat :| Leads(net, conns, p, isOut, r, n);
    } else if net.Has(k) {
      var ks := iset m: Key | m.isOut == isOut && m.port.idx in net.tunnels;
      assert Untroubled(net, conns, st, ks);
      ExpandHoldsAll(net, conns, st, k, ks);
      assert HoldsAll(net, conns, k, Expand(net, st, k).1);
    } else {
      DirectOfNone(net, conns, k);
      NothingReached(net, conns, k);
    }
  }

  lemma FirstThrough(net: Net, conns: seq<Conn>, st: State, c: Conn, d: Conn)
    requires FirstCut(net, conns, st) && Carried(net, conns, c, d)
    ensures d in Through(net, st, c).1
  {
    hide Direct, ExpandPort, Product, Reaches, Covers;
    FirstCutIsFresh(net, conns, st);
    FirstExpansion(net, conns, st, c.from, true, d.from);
    ExpandPortCovers(net, conns, st, c.from, true);
    var (st1, fs) := ExpandPort(net, st, c.from, true);
    FirstExpansion(net, conns, st1, c.to, false, d.to);
    ProductMember(net, fs, ExpandPort(net, st1, c.to, false).1, d);
  }

  lemma FirstCutIsFresh(net: Net, conns: seq<Conn>, st: State)
    requires FirstCut(net, conns, st)
    ensures FreshIsDirect(net, conns, st) && SideIsFresh(st, true) && SideIsFresh(st, false)
  {
    hide Direct;
  }

  lemma {:induction false} PlainAddsNothing(net: Net, conns: seq<Conn>, st: State, n: nat)
    requires n <= |conns| && forall j :: 0 <= j < n ==> Plain(net, conns[j])
    ensures Flatten(net, st, conns, n) == (st, [])
  {
    if n > 0 {
      PlainAddsNothing(net, conns, st, n - 1);
    }
  }

  lemma {:induction false} AddedStays(net: Net, conns: seq<Conn>, st: State, m: nat, n: nat, d: Conn)
    requires m <= n <= |conns| && d in Flatten(net, st, conns, m).1
    ensures d in Flatten(net, st, conns, n).1
    decreases n
  {
    hide Through;
    if m < n {
      AddedStays(net, conns, st, m, n - 1, d);
    }
  }

  /** c is the first connection that enters or leaves a tunnel. */
  ghost predicate IsFirst(net: Net, conns: seq<Conn>, c: Conn)
  {
    exists i :: 0 <= i < |conns| && conns[i] == c && !Plain(net, c) && forall j :: 0 <= j < i ==> Plain(net, conns[j])
  }

  ghost predicate PassesFirst(net: Net, conns: seq<Conn>, path: seq<Conn>)
  {
    exists i :: 0 <= i < |path| && IsFirst(net, conns, path[i])
  }

  /** Chains through the first connection that is expanded are emitted whatever cycles there are. */
  lemma FirstIsEmitted(net: Net, conns: seq<Conn>, st: State, path: seq<Conn>, f: Port, t: Port, i: nat)
    requires net.Valid() && FirstCut(net, conns, st)
    requires Joins(net, conns, path, f, t) && i < |path| && IsFirst(net, conns, path[i])
    ensures Emitted(net, conns, st, Conn(t, f))
  {
    hide Net.Valid, FirstCut, Flatten, Through, Direct, Leads;
    var c, d := path[i], Conn(t, f);
    EndsAreNoTunnels(net, f, t);
    ChainForward(net, conns, path, i);
    ChainBackward(net, conns, path, i);
    assert Carried(net, conns, c, d);
    FirstThrough(net, conns, st, c, d);
    var j :| 0 <= j < |conns| && conns[j] == c && !Plain(net, c) && forall k :: 0 <= k < j ==> Plain(net, conns[k]);
    PlainAddsNothing(net, conns, st, j);
    FlattenStep(net, conns, st, j);
    AddedStays(net, conns, st, j + 1, |conns|, d);
  }

  lemma EndsAreNoTunnels(net: Net, f: Port, t: Port)
    requires net.Valid() && f.idx in net.elements && t.idx in net.elements
    ensures f.idx !in net.tunnels && t.idx !in net.tunnels
  {
  }

  lemma FlattenStep(net: Net, conns: seq<Conn>, st: State, n: nat)
    requires n < |conns| && !Plain(net, conns[n]) && Flatten(net, st, conns, n) == (st, [])
    ensures forall d :: d in Through(net, st, conns[n]).1 ==> d in Flatten(net, st, conns, n + 1).1
  {
    hide Through;
  }

  // ---------------------------------------------------------------- cycles

  /** No chain of connections comes back to where it began. */
  ghost predicate NoCycle(net: Net, conns: seq<Conn>)
  {
    forall path :: Chain(net, conns, path) && |path| > 1 ==> path[0] != path[|path| - 1]
  }

  lemma {:induction false} ElementCount<T>(s: seq<T>)
    ensures |set x | x in s| <= |s|
    ensures Distinct(s) ==> |set x | x in s| == |s|
  {
    if s != [] {
      var n := |s| - 1;
      var all, before := set x | x in s, set x | x in s[..n];
      ElementCount(s[..n]);
      assert s == s[..n] + [s[n]];
      assert all == before + {s[n]};
    }
  }

  /** A chain without a cycle has each connection at most once. */
  lemma ChainIsShort(net: Net, conns: seq<Conn>, path: seq<Conn>)
    requires NoCycle(net, conns) && Chain(net, conns, path)
    ensures |path| <= |conns|
  {
    forall i, j | 0 <= i < j < |path|
      ensures path[i] != path[j]
    {
      var part := path[i..j + 1];
      assert forall k :: 0 <= k < |part| ==> part[k] == path[i + k];
      assert Chain(net, conns, part);
      assert part[0] == path[i] && part[|part| - 1] == path[j];
    }
    ElementCount(path);
    ElementCount(conns);
    SubsetSize(set c | c in path, set c | c in conns);
  }

  /** What the last connection of a chain leads into is bounded by the connections not used yet. */
  lemma {:induction false} ChainIsBounded(net: Net, conns: seq<Conn>, path: seq<Conn>)
    requires net.Valid() && NoCycle(net, conns) && Chain(net, conns, path)
    ensures |path| <= |conns| && Bounded(net, conns, path[|path| - 1].to, false, |conns| - |path| + 1)
    decreases |conns| - |path|
  {
    hide Net.Valid, NoCycle;
    ChainIsShort(net, conns, path);
    var c := path[|path| - 1];
    var k := Key(c.to, false);
    forall q | q in Direct(net, conns, k)
      ensures Bounded(net, conns, q, false, |conns| - |path|)
    {
      DirectMember(net, conns, k, q);
      var d :| d in conns && net.Has(k) && d.from == net.Other(k).port && d.to == q;
      ChainMore(net, conns, path, d);
      ChainIsShort(net, conns, path + [d]);
      ChainIsBounded(net, conns, path + [d]);
    }
  }

  lemma ChainMore(net: Net, conns: seq<Conn>, path: seq<Conn>, d: Conn)
    requires Chain(net, conns, path) && d in conns && Continues(net, path[|path| - 1], d)
    ensures Chain(net, conns, path + [d])
  {
  }

  lemma {:induction false} BoundedAlong(net: Net, conns: seq<Conn>, path: seq<Conn>, i: nat, n: nat)
    requires net.Valid() && Chain(net, conns, path) && i < |path|
    requires Bounded(net, conns, path[0].to, false, n)
    ensures i <= n && Bounded(net, conns, path[i].to, false, n - i)
    decreases i
  {
    hide Net.Valid;
    if i > 0 {
      BoundedAlong(net, conns, path, i - 1, n);
      assert Continues(net, path[i - 1], path[i]);
      var k := Key(path[i - 1].to, false);
      net.OtherOfOther(k);
      DirectMember(net, conns, k, path[i].to);
    }
  }

  lemma {:induction false} CycleIsUnbounded(net: Net, conns: seq<Conn>, path: seq<Conn>, n: nat)
    requires net.Valid() && Chain(net, conns, path) && |path| > 1 && path[0] == path[|path| - 1]
    ensures !Bounded(net, conns, path[0].to, false, n)
    decreases n
  {
    hide Net.Valid, Chain;
    if Bounded(net, conns, path[0].to, false, n) {
      BoundedAlong(net, conns, path, |path| - 1, n);
      CycleIsUnbounded(net, conns, path, n - (|path| - 1));
    }
  }

  /** Connections form no cycle exactly if every way on from each of them is bounded. */
  lemma NoCycleIsAcyclic(net: Net, conns: seq<Conn>)
    requires net.Valid()
    ensures NoCycle(net, conns) <==> forall c: Conn :: c in conns ==> Acyclic(net, conns, c.to, false)
  {
    hide Net.Valid, Bounded;
    if NoCycle(net, conns) {
      forall c | c in conns
        ensures Acyclic(net, conns, c.to, false)
      {
        ChainIsBounded(net, conns, [c]);
      }
    }
    if forall c: Conn :: c in conns ==> Acyclic(net, conns, c.to, false) {
      forall path: seq<Conn> | Chain(net, conns, path) && |path| > 1
        ensures path[0] != path[|path| - 1]
      {
        assert path[0] in conns;
        var n: nat :| Bounded(net, conns, path[0].to, false, n);
        if path[0] == path[|path| - 1] {
          CycleIsUnbounded(net, conns, path, n);
        }
      }
    }
  }

  /** Without cycles of tunnels, flattening preserves meaning exactly. */
  lemma AcyclicIsExact(net: Net, conns: seq<Conn>, st: State, d: Conn)
    requires net.Valid() && FirstCut(net, conns, st)
    requires NoCycle(net, conns)
    ensures Emitted(net, conns, st, d) <==> exists path :: Joins(net, conns, path, d.from, d.to)
  {
    NoCycleIsAcyclic(net, conns);
    if Emitted(net, conns, st, d) {
      var path := EmittedIsJoined(net, conns, st, d);
    }
    if exists path :: Joins(net, conns, path, d.from, d.to) {
      var path: seq<Conn> :| Joins(net, conns, path, d.from, d.to);
      assert Bounded(net, conns, path[0].from, true, 0);
      JoinedIsEmitted(net, conns, st, path, d.from, d.to, 0);
    }
  }

  lemma MainResults(net: Net, conns: seq<Conn>, st: State, out: seq<Conn>)
    requires net.Valid() && FirstCut(net, conns, st)
    requires forall d :: d in out <==> Emitted(net, conns, st, d)
    ensures forall d :: d in out ==> exists path :: Joins(net, conns, path, d.from, d.to)
    ensures forall path, f, t :: Joins(net, conns, path, f, t) && |path| <= 3 ==> Conn(t, f) in out
    ensures forall path, f, t :: Joins(net, conns, path, f, t) && PassesFirst(net, conns, path) ==> Conn(t, f) in out
    ensures NoCycle(net, conns) ==> forall path, f, t :: Joins(net, conns, path, f, t) ==> Conn(t, f) in out
  {
    hide Emitted, FirstCut, NoCycle, Chain, IsFirst;
    forall d | d in out
      ensures exists path :: Joins(net, conns, path, d.from, d.to)
    {
      var path := EmittedIsJoined(net, conns, st, d);
    }
    forall path, f, t | Joins(net, conns, path, f, t) && |path| <= 3
      ensures Conn(t, f) in out
    {
      ShortIsEmitted(net, conns, st, path, f, t);
    }
    forall path, f, t | Joins(net, conns, path, f, t) && PassesFirst(net, conns, path)
      ensures Conn(t, f) in out
    {
      var i :| 0 <= i < |path| && IsFirst(net, conns, path[i]);
      FirstIsEmitted(net, conns, st, path, f, t, i);
    }
    if NoCycle(net, conns) {
      forall path, f, t | Joins(net, conns, path, f, t)
        ensures Conn(t, f) in out
      {
        AcyclicIsExact(net, conns, st, Conn(t, f));
      }
    }
  }

  // ---------------------------------------------------------------- the imperative form

  /** The part of Lexer that expands connections. */
  class Lexer {
    const net: Net
    var conns: seq<Conn>
    var ends: State

    constructor (net: Net, conns: seq<Conn>)
      ensures this.net == net && this.conns == conns && this.ends == map[]
    {
      this.net := net;
      this.conns := conns;
      this.ends := map[];
    }

    /** First-level connection expansion. */
    method NoteConnections()
      requires net.Valid() && ends == map[]
      modifies this`ends
      ensures FirstCut(net, conns, ends)
    {
      var i := 0;
      while i < |conns|
        invariant 0 <= i <= |conns|
        invariant FirstCut(net, conns[..i], ends)
      {
        NotedFirstCut(net, conns[..i], conns[i], ends);
        assert conns[..i + 1] == conns[..i] + [conns[i]];
        ends := Noted(net, ends, conns[i], false);
        ends := Noted(net, ends, conns[i], true);
        i := i + 1;
      }
      assert conns[..i] == conns;
    }

    /** TunnelEnd::expand. */
    method ExpandEnd(k: Key, into: seq<Port>) returns (into': seq<Port>)
      modifies this`ends
      ensures ends == Expand(net, old(ends), k).0
      ensures into' == into + Expand(net, old(ends), k).1
      decreases |FreshKeys(ends)|, 0, 0
    {
      var e := Get(ends, k);
      if e.mark.Open? {
        return into;
      }
      if e.mark.Fresh? {
        ghost var st := ends;
        ends := ends[k := End([], Open)];
        assert FreshKeys(ends) == FreshKeys(st) - {k};
        if e.correspond != [] {
          var ps := ExpandEach(e.correspond, k.isOut);
          ends := ends[k := End(ps, Done)];
        } else {
          // the source reports the port as unused or missing here
          ends := ends[k := End([], Done)];
          assert k !in st ==> ends == st[k := End([], Done)];
        }
      }
      into' := into + ends[k].correspond;
    }

    /** The loop of TunnelEnd::expand over the first cut. */
    method ExpandEach(first: seq<Port>, isOut: bool) returns (ps: seq<Port>)
      modifies this`ends
      ensures ends == ExpandAll(net, old(ends), first, isOut).0
      ensures ps == ExpandAll(net, old(ends), first, isOut).1
      decreases |FreshKeys(ends)|, 2, |first|
    {
      hide FreshKeys, ExpandPort;
      ghost var st := ends;
      ghost var all := ExpandAll(net, st, first, isOut);
      ps := [];
      var i := 0;
      assert first[i..] == first;
      while i < |first|
        invariant 0 <= i <= |first|
        invariant FreshKeys(ends) <= FreshKeys(st)
        invariant ExpandAll(net, ends, first[i..], isOut).0 == all.0
        invariant ps + ExpandAll(net, ends, first[i..], isOut).1 == all.1
      {
        SubsetSize(FreshKeys(ends), FreshKeys(st));
        assert first[i..][1..] == first[i + 1..];
        ps := ExpandConnection(first[i], isOut, ps);
        i := i + 1;
      }
    }

    /** Lexer::expand_connection. */
    method ExpandConnection(p: Port, isOut: bool, into: seq<Port>) returns (into': seq<Port>)
      modifies this`ends
      ensures ends == ExpandPort(net, old(ends), p, isOut).0
      ensures into' == into + ExpandPort(net, old(ends), p, isOut).1
      decreases |FreshKeys(ends)|, 1, 0
    {
      if p.idx !in net.tunnels {
        into' := into + [p];
      } else if net.Has(Key(p, isOut)) {
        into' := ExpandEnd(Key(p, isOut), into);
      } else {
        into' := into;
      }
    }

    /** Lexer::add_router_connections. */
    method AddRouterConnections(c: Conn)
      modifies this`ends, this`conns
      ensures ends == Through(net, old(ends), c).0
      ensures conns == old(conns) + Through(net, old(ends), c).1
    {
      hide ExpandPort, Product;
      ghost var st, before := ends, conns;
      var hfrom := ExpandConnection(c.from, true, []);
      assert hfrom == ExpandPort(net, st, c.from, true).1;
      var hto := ExpandConnection(c.to, false, []);
      assert hto == ExpandPort(net, ExpandPort(net, st, c.from, true).0, c.to, false).1;
      ConnectAll(hfrom, hto);
    }

    /** The outer loop of add_router_connections. */
    method ConnectAll(hfrom: seq<Port>, hto: seq<Port>)
      modifies this`conns
      ensures conns == old(conns) + Product(net, hfrom, hto)
    {
      hide Row;
      ghost var before := conns;
      var i := 0;
      assert hfrom[i..] == hfrom;
      while i < |hfrom|
        invariant 0 <= i <= |hfrom|
        invariant conns + Product(net, hfrom[i..], hto) == before + Product(net, hfrom, hto)
      {
        if hfrom[i].idx in net.elements {
          ConnectRow(hfrom[i], hto);
        }
        assert hfrom[i..][1..] == hfrom[i + 1..];
        i := i + 1;
      }
    }

    /** The inner loop of add_router_connections. */
    method ConnectRow(f: Port, hto: seq<Port>)
      modifies this`conns
      ensures conns == old(conns) + Row(net, f, hto)
    {
      hide Row;
      ghost var before := conns;
      var j := 0;
      assert hto[j..] == hto;
      while j < |hto|
        invariant 0 <= j <= |hto|
        invariant conns + Row(net, f, hto[j..]) == before + Row(net, f, hto)
      {
        RowStep(net, f, hto, j);
        ghost var rest := Row(net, f, hto[j + 1..]);
        assert conns + ([Conn(hto[j], f)] + rest) == conns + [Conn(hto[j], f)] + rest;
        if hto[j].idx in net.elements {
          conns := conns + [Conn(hto[j], f)];
        }
        j := j + 1;
      }
      RowOfNone(net, f);
      assert hto[j..] == [] && conns + [] == conns;
    }

    /** The connection part of create_router: the connections between elements that the router
        gets. Each stands for a chain of the given connections; chains through at most two tunnels
        or through the first connection to be expanded are never lost, and no chain is when there is
        no cycle of tunnels. */
    method RouterConnections() returns (out: seq<Conn>)
      requires net.Valid() && ends == map[]
      modifies this`ends, this`conns
      ensures forall d :: d in out ==>
                exists path :: Joins(net, old(conns), path, d.from, d.to)
      ensures forall path, f, t :: Joins(net, old(conns), path, f, t) && |path| <= 3 ==> Conn(t, f) in out
      ensures forall path, f, t ::
                Joins(net, old(conns), path, f, t) && PassesFirst(net, old(conns), path) ==> Conn(t, f) in out
      ensures NoCycle(net, old(conns)) ==>
                forall path, f, t :: Joins(net, old(conns), path, f, t) ==> Conn(t, f) in out
    {
      ghost var given := conns;
      NoteConnections();
      ghost var st := ends;
      ExpandConnections();
      out := [];
      var i := 0;
      while i < |conns|
        invariant 0 <= i <= |conns|
        invariant forall d :: d in out <==> d in conns[..i] && Plain(net, d)
      {
        if Plain(net, conns[i]) {
          out := out + [conns[i]];
        }
        assert conns[..i + 1] == conns[..i] + [conns[i]];
        i := i + 1;
      }
      assert conns[..i] == conns;
      assert forall d :: d in out <==> Emitted(net, given, st, d);
      MainResults(net, given, st, out);
    }

    /** The second pass over the connections there were before it. */
    method ExpandConnections()
      modifies this`ends, this`conns
      ensures ends == Flatten(net, old(ends), old(conns), |old(conns)|).0
      ensures conns == old(conns) + Flatten(net, old(ends), old(conns), |old(conns)|).1
    {
      hide Through;
      ghost var st, given := ends, conns;
      var n := |conns|;
      var i := 0;
      while i < n
        invariant 0 <= i <= n
        invariant ends == Flatten(net, st, given, i).0
        invariant conns == given + Flatten(net, st, given, i).1
      {
        assert conns[i] == given[i];
        if !Plain(net, conns[i]) {
          AddRouterConnections(conns[i]);
        }
        i := i + 1;
      }
    }
  }
}
