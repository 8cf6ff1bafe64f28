/** The lexer's table of element types (click/lib/lexer.cc): live types chained newest first, free
    slots chained for reuse, a map from names to their newest type, and scopes that undo. */
module ElementTypes {
  import opened Common

  // ---------------------------------------------------------------- what the table means

  /** A live type: its number, its name (empty for anonymous compounds) and whether it ends with
      the scope it was added in. */
  datatype Type = Type(id: nat, name: string, scoped: bool)

  /** The live types, newest first; the free numbers, last freed first; and how many numbers have
      been handed out. */
  datatype Table = Table(live: seq<Type>, free: seq<nat>, size: nat)

  const EMPTY := Table([], [], 0)

  function Ids(live: seq<Type>): (ids: seq<nat>)
    ensures |ids| == |live| && forall i :: 0 <= i < |live| ==> ids[i] == live[i].id
  {
    seq(|live|, i requires 0 <= i < |live| => live[i].id)
  }

  /** All numbers in use, live ones first. */
  function Numbers(t: Table): (ids: seq<nat>)
  {
    Ids(t.live) + t.free
  }

  /** Each number handed out is live or free, never both, and stands in its list once. */
  ghost predicate Partition(t: Table)
  {
    && Distinct(Numbers(t))
    && (forall id :: id in Numbers(t) <==> 0 <= id < t.size)
  }

  /** The live types without number id. */
  function Without(live: seq<Type>, id: int): (rest: seq<Type>)
  {
    if live == [] then [] else if live[0].id == id then live[1..] else [live[0]] + Without(live[1..], id)
  }

  /** Leaving a scope: the scoped types newer than the cookie go, the others stay. */
  function Unscoped(live: seq<Type>, cookie: int): (rest: seq<Type>)
  {
    if live == [] || live[0].id == cookie then live
    else if live[0].scoped then Unscoped(live[1..], cookie)
    else [live[0]] + Unscoped(live[1..], cookie)
  }

  /** The numbers that leaving a scope frees, last freed first. */
  function Freed(live: seq<Type>, cookie: int): (ids: seq<nat>)
  {
    if live == [] || live[0].id == cookie then []
    else Freed(live[1..], cookie) + if live[0].scoped then [live[0].id] else []
  }

  datatype Op = Add(name: string, scoped: bool) | Remove(id: int) | ScopeOut(cookie: int)

  /** Taking a scope's cookie: the newest type, or -1 for none. */
  function Cookie(t: Table): (c: int)
  {
    if t.live == [] then -1 else t.live[0].id
  }

  function Apply(t: Table, op: Op): (t': Table)
  {
    match op
    case Add(name, scoped) =>
      if t.free == [] then Table([Type(t.size, name, scoped)] + t.live, [], t.size + 1)
      else Table([Type(t.free[0], name, scoped)] + t.live, t.free[1..], t.size)
    case Remove(id) =>
      if id in Ids(t.live) then Table(Without(t.live, id), [id] + t.free, t.size) else t
    case ScopeOut(cookie) =>
      Table(Unscoped(t.live, cookie), Freed(t.live, cookie) + t.free, t.size)
  }

  function Run(t: Table, ops: seq<Op>): (t': Table)
  {
    if ops == [] then t else Apply(Run(t, ops[..|ops| - 1]), ops[|ops| - 1])
  }

  // ---------------------------------------------------------------- every run keeps the partition

  lemma SameElements(a: seq<nat>, b: seq<nat>)
    requires multiset(a) == multiset(b)
    ensures forall id :: id in a <==> id in b
    ensures Distinct(a) ==> Distinct(b)
  {
    forall id
      ensures id in a <==> id in b
    {
      assert id in a <==> id in multiset(a);
      assert id in b <==> id in multiset(b);
    }
    if Distinct(a) && !Distinct(b) {
      var i, j :| 0 <= i < j < |b| && b[i] == b[j];
      CountTwice(b, i, j);
      var k :| 0 <= k < |a| && a[k] == b[i];
      CountOnce(a, k);
    }
  }

  lemma IdsCons(e: Type, rest: seq<Type>)
    ensures Ids([e] + rest) == [e.id] + Ids(rest)
  {
  }

  lemma {:induction false} WithoutIds(live: seq<Type>, id: nat)
    requires id in Ids(live)
    ensures multiset(Ids(Without(live, id))) + multiset{id} == multiset(Ids(live))
  {
    hide Ids;
    assert live == [live[0]] + live[1..];
    IdsCons(live[0], live[1..]);
    if live[0].id != id {
      WithoutIds(live[1..], id);
      IdsCons(live[0], Without(live[1..], id));
    }
  }

  lemma {:induction false} UnscopedIds(live: seq<Type>, cookie: int)
    ensures multiset(Ids(Unscoped(live, cookie))) + multiset(Freed(live, cookie)) == multiset(Ids(live))
  {
    hide Ids, Unscoped, Freed;
    if live == [] || live[0].id == cookie {
      UnscopedStops(live, cookie);
    } else {
      UnscopedIds(live[1..], cookie);
      UnscopedStep(live, cookie);
      FreedStep(live, cookie);
      IdsStep(live);
    }
  }

  lemma UnscopedStops(live: seq<Type>, cookie: int)
    requires live == [] || live[0].id == cookie
    ensures Unscoped(live, cookie) == live && Freed(live, cookie) == []
  {
  }

  lemma IdsStep(live: seq<Type>)
    requires live != []
    ensures multiset(Ids(live)) == multiset{live[0].id} + multiset(Ids(live[1..]))
  {
    hide Ids;
    assert live == [live[0]] + live[1..];
    IdsCons(live[0], live[1..]);
  }

  lemma UnscopedStep(live: seq<Type>, cookie: int)
    requires live != [] && live[0].id != cookie
    ensures multiset(Ids(Unscoped(live, cookie)))
            == multiset(Ids(Unscoped(live[1..], cookie))) + if live[0].scoped then multiset{} else multiset{live[0].id}
  {
    hide Ids;
    IdsCons(live[0], Unscoped(live[1..], cookie));
  }

  lemma FreedStep(live: seq<Type>, cookie: int)
    requires live != [] && live[0].id != cookie
    ensures multiset(Freed(live, cookie))
            == multiset(Freed(live[1..], cookie)) + if live[0].scoped then multiset{live[0].id} else multiset{}
  {
  }

  lemma AddKeepsPartition(t: Table, name: string, scoped: bool)
    requires Partition(t)
    ensures Partition(Apply(t, Add(name, scoped)))
  {
    hide Ids, Distinct;
    var t' := Apply(t, Add(name, scoped));
    IdsCons(t'.live[0], t.live);
    if t.free == [] {
      assert Numbers(t') == [t.size] + Numbers(t);
      FreshIsDistinct(Numbers(t), t.size);
    } else {
      MovedToFront(Ids(t.live), t.free);
      SameElements(Numbers(t), Numbers(t'));
    }
  }

  lemma MovedToFront(a: seq<nat>, b: seq<nat>)
    requires b != []
    ensures multiset(a + b) == multiset([b[0]] + a + b[1..])
  {
    assert b == [b[0]] + b[1..];
  }

  lemma FreshIsDistinct(ids: seq<nat>, id: nat)
    requires Distinct(ids) && id !in ids
    ensures Distinct([id] + ids)
  {
  }

  lemma ApplyKeepsPartition(t: Table, op: Op)
    requires Partition(t)
    ensures Partition(Apply(t, op))
  {
    hide Ids, Distinct;
    match op
    case Add(name, scoped) =>
      AddKeepsPartition(t, name, scoped);
    case Remove(id) =>
      if id in Ids(t.live) {
        WithoutIds(t.live, id);
        SameElements(Numbers(t), Numbers(Apply(t, op)));
      }
    case ScopeOut(cookie) =>
      UnscopedIds(t.live, cookie);
      SameElements(Numbers(t), Numbers(Apply(t, op)));
  }

  /** In every state any sequence of operations leads to, each number is on exactly one list. */
  lemma {:induction false} RunKeepsPartition(ops: seq<Op>)
    ensures Partition(Run(EMPTY, ops))
  {
    if ops != [] {
      RunKeepsPartition(ops[..|ops| - 1]);
      ApplyKeepsPartition(Run(EMPTY, ops[..|ops| - 1]), ops[|ops| - 1]);
    }
  }

  // ---------------------------------------------------------------- what leaving a scope undoes

  /** The live types told apart by age: those added since some moment, and those older. */
  datatype Ages = Ages(newer: seq<Type>, older: seq<Type>)

  /** The effect of an operation on the two ages. An added type is new; a removed one is gone from
      wherever it was; leaving a scope sweeps the newer types and goes on to the older ones only if
      it has not met its cookie. */
  function Aged(t: Table, a: Ages, op: Op): (a': Ages)
  {
    match op
    case Add(name, scoped) => Ages([Apply(t, op).live[0]] + a.newer, a.older)
    case Remove(id) =>
      if id in Ids(a.newer) then Ages(Without(a.newer, id), a.older)
      else if id in Ids(a.older) then Ages(a.newer, Without(a.older, id)) else a
    case ScopeOut(cookie) =>
      if cookie in Ids(a.newer) then Ages(Unscoped(a.newer, cookie), a.older)
      else Ages(Unscoped(a.newer, -1), Unscoped(a.older, cookie))
  }

  /** The ages after a run that started at the moment in question. */
  function AgesAfter(t: Table, ops: seq<Op>): (a: Ages)
  {
    if ops == [] then Ages([], t.live)
    else
      var before := ops[..|ops| - 1];
      Aged(Run(t, before), AgesAfter(t, before), ops[|ops| - 1])
  }

  lemma WithoutCons(e: Type, rest: seq<Type>, id: int)
    ensures Without([e] + rest, id) == if e.id == id then rest else [e] + Without(rest, id)
  {
    assert ([e] + rest)[1..] == rest;
  }

  ghost predicate HasId(ts: seq<Type>, id: int)
  {
    id in Ids(ts)
  }

  lemma HasIdCons(e: Type, rest: seq<Type>, id: int)
    ensures HasId([e] + rest, id) <==> e.id == id || HasId(rest, id)
  {
    hide Ids;
    IdsCons(e, rest);
  }

  lemma WithoutNone(id: int)
    ensures Without([], id) == [] && !HasId([], id)
  {
  }

  lemma {:induction false} WithoutOf(newer: seq<Type>, older: seq<Type>, id: int)
    ensures Without(newer + older, id)
            == if HasId(newer, id) then Without(newer, id) + older else newer + Without(older, id)
  {
    hide Without, HasId;
    if newer == [] {
      WithoutNone(id);
      assert newer + older == older;
      assert [] + Without(older, id) == Without(older, id);
    } else {
      var e, rest := newer[0], newer[1..];
      assert newer == [e] + rest && newer + older == [e] + (rest + older);
      HasIdCons(e, rest, id);
      WithoutCons(e, rest, id);
      WithoutCons(e, rest + older, id);
      WithoutOf(rest, older, id);
      if HasId(rest, id) {
        assert [e] + (Without(rest, id) + older) == [e] + Without(rest, id) + older;
      } else {
        assert [e] + (rest + Without(older, id)) == newer + Without(older, id);
      }
    }
  }

  lemma {:induction false} UnscopedOf(newer: seq<Type>, older: seq<Type>, cookie: int)
    ensures Unscoped(newer + older, cookie)
            == if cookie in Ids(newer) then Unscoped(newer, cookie) + older
               else Unscoped(newer, -1) + Unscoped(older, cookie)
  {
    if newer == [] {
      assert newer + older == older;
    } else {
      assert (newer + older)[1..] == newer[1..] + older;
      assert Ids(newer) == [newer[0].id] + Ids(newer[1..]);
      UnscopedOf(newer[1..], older, cookie);
    }
  }

  lemma {:induction false} WithoutAbsent(live: seq<Type>, id: int)
    requires id !in Ids(live)
    ensures Without(live, id) == live
  {
    if live != [] {
      assert Ids(live) == [live[0].id] + Ids(live[1..]);
      WithoutAbsent(live[1..], id);
    }
  }

  /** The ages always add up to the live types. */
  lemma {:induction false} AgesAddUp(t: Table, ops: seq<Op>)
    ensures var a := AgesAfter(t, ops); Run(t, ops).live == a.newer + a.older
  {
    hide Apply, Aged;
    if ops == [] {
      assert [] + t.live == t.live;
    } else {
      var before, op := ops[..|ops| - 1], ops[|ops| - 1];
      AgesAddUp(t, before);
      AgedAddsUp(Run(t, before), AgesAfter(t, before), op);
    }
  }

  lemma AgedAddsUp(t: Table, a: Ages, op: Op)
    requires t.live == a.newer + a.older
    ensures Apply(t, op).live == Aged(t, a, op).newer + Aged(t, a, op).older
  {
    hide Ids, Unscoped, Without;
    assert Ids(a.newer + a.older) == Ids(a.newer) + Ids(a.older);
    match op
    case Add(name, scoped) =>
    case Remove(id) =>
      WithoutOf(a.newer, a.older, id);
    case ScopeOut(cookie) =>
      UnscopedOf(a.newer, a.older, cookie);
  }

  /** Leaving a scope whose cookie is still the newest of the older types removes exactly the
      scoped types added since the cookie was taken, whatever happened in between. */
  lemma ScopeOutUndoes(t: Table, ops: seq<Op>)
    requires Partition(Run(t, ops))
    requires var a := AgesAfter(t, ops);
             if t.live == [] then a.older == [] else a.older != [] && a.older[0].id == Cookie(t)
    ensures var a := AgesAfter(t, ops);
            && Apply(Run(t, ops), ScopeOut(Cookie(t))).live == Unscoped(a.newer, -1) + a.older
            && (forall e :: e in Unscoped(a.newer, -1) <==> e in a.newer && !e.scoped)
  {
    var a, s := AgesAfter(t, ops), Run(t, ops);
    AgesAddUp(t, ops);
    UnscopedOf(a.newer, a.older, Cookie(t));
    UnscopedMembers(a.newer);
    if a.older != [] {
      forall i | 0 <= i < |a.newer|
        ensures Ids(a.newer)[i] != Cookie(t)
      {
        assert Numbers(s)[i] != Numbers(s)[|a.newer|];
      }
    } else {
      assert Cookie(t) !in Ids(a.newer);
    }
  }

  lemma {:induction false} UnscopedMembers(live: seq<Type>)
    ensures forall e :: e in Unscoped(live, -1) <==> e in live && !e.scoped
  {
    if live != [] {
      UnscopedMembers(live[1..]);
      assert live == [live[0]] + live[1..];
    }
  }

  lemma {:induction false} AllScoped(live: seq<Type>)
    requires forall e :: e in live ==> e.scoped
    ensures Unscoped(live, -1) == []
  {
    if live != [] {
      AllScoped(live[1..]);
    }
  }

  /** A scope in which only scoped types were added leaves no trace among the live types. */
  lemma ScopeRestores(t: Table, ops: seq<Op>)
    requires Partition(t)
    requires forall i :: 0 <= i < |ops| ==> ops[i].Add? && ops[i].scoped
    ensures Apply(Run(t, ops), ScopeOut(Cookie(t))).live == t.live
  {
    OnlyAdds(t, ops);
    ScopeOutUndoes(t, ops);
    var a := AgesAfter(t, ops);
    AllScoped(a.newer);
    assert [] + t.live == t.live;
  }

  lemma {:induction false} OnlyAdds(t: Table, ops: seq<Op>)
    requires Partition(t)
    requires forall i :: 0 <= i < |ops| ==> ops[i].Add? && ops[i].scoped
    ensures Partition(Run(t, ops))
    ensures AgesAfter(t, ops).older == t.live
    ensures forall e :: e in AgesAfter(t, ops).newer ==> e.scoped
  {
    if ops != [] {
      var before := ops[..|ops| - 1];
      OnlyAdds(t, before);
      ApplyKeepsPartition(Run(t, before), ops[|ops| - 1]);
    }
  }

  // ---------------------------------------------------------------- names

  /** The newest live type of each name. */
  function Newest(live: seq<Type>): (m: map<string, nat>)
  {
    if live == [] then map[]
    else if live[0].name == [] then Newest(live[1..])
    else Newest(live[1..])[live[0].name := live[0].id]
  }

  /** A name maps to the first type of that name in the chain, and only names of live types do. */
  lemma {:induction false} NewestIsFirst(live: seq<Type>, k: nat)
    requires k <= |live|
    requires k < |live| ==> live[k].name != []
    ensures k < |live| && (forall j :: 0 <= j < k ==> live[j].name != live[k].name) ==>
              live[k].name in Newest(live) && Newest(live)[live[k].name] == live[k].id
    ensures forall n :: n in Newest(live) ==> exists j :: 0 <= j < |live| && live[j].name == n != []
  {
    if live != [] {
      NewestIsFirst(live[1..], if k == 0 then |live| - 1 else k - 1);
      forall n | n in Newest(live)
        ensures exists j :: 0 <= j < |live| && live[j].name == n != []
      {
        if n in Newest(live[1..]) {
          var j :| 0 <= j < |live[1..]| && live[1..][j].name == n != [];
          assert live[j + 1].name == n;
        }
      }
    }
  }

  /** The newest type of name n in a stretch of the chain, if any. */
  function FirstNamed(live: seq<Type>, n: string): (r: Option<nat>)
  {
    if live == [] then None else if live[0].name == n then Some(live[0].id) else FirstNamed(live[1..], n)
  }

  lemma {:induction false} NewestLookup(live: seq<Type>, n: string)
    ensures n in Newest(live) <==> n != [] && FirstNamed(live, n).Some?
    ensures n in Newest(live) ==> FirstNamed(live, n) == Some(Newest(live)[n])
  {
    if live != [] {
      NewestLookup(live[1..], n);
    }
  }

  lemma {:induction false} FirstNamedWithout(live: seq<Type>, k: nat, n: string)
    requires k < |live| && Distinct(Ids(live))
    ensures FirstNamed(live[..k] + live[k + 1..], n)
            == if n == live[k].name && FirstNamed(live, n) == Some(live[k].id)
               then FirstNamed(live[k + 1..], n) else FirstNamed(live, n)
  {
    if k == 0 {
      assert live[..0] + live[1..] == live[1..];
    } else {
      var tail := live[1..];
      assert (live[..k] + live[k + 1..])[1..] == tail[..k - 1] + tail[k..];
      assert tail[k - 1] == live[k] && tail[k..] == live[k + 1..];
      forall i, j | 0 <= i < j < |tail|
        ensures Ids(tail)[i] != Ids(tail)[j]
      {
        assert Ids(live)[i + 1] != Ids(live)[j + 1];
      }
      assert Ids(live)[0] != Ids(live)[k];
      FirstNamedWithout(tail, k - 1, n);
    }
  }

  /** The map after type e is gone: if e was the newest of its name, the next older type of that
      name takes over, or the name goes. */
  function AfterRemoval(m: map<string, nat>, e: Type, older: Option<nat>): (m': map<string, nat>)
  {
    if e.name in m && m[e.name] == e.id then
      match older
      case None => m - {e.name}
      case Some(id) => m[e.name := id]
    else m
  }

  /** What a map says about x. */
  function Found(m: map<string, nat>, x: string): (id: Option<nat>)
  {
    if x in m then Some(m[x]) else None
  }

  lemma NewestFound(live: seq<Type>, x: string)
    ensures Found(Newest(live), x) == if x == [] then None else FirstNamed(live, x)
  {
    hide Newest, FirstNamed;
    NewestLookup(live, x);
  }

  lemma FoundAfterRemoval(m: map<string, nat>, e: Type, older: Option<nat>, x: string)
    ensures Found(AfterRemoval(m, e, older), x)
            == if x == e.name && Found(m, x) == Some(e.id) then older else Found(m, x)
  {
  }

  /** What a name stands for. */
  function LookUp(t: Table, x: string): (id: Option<nat>)
  {
    Found(Newest(t.live), x)
  }

  /** A name that is added stands for the new type, which no live type was, and other names stand for
      what they did. */
  lemma AddFinds(t: Table, name: string, scoped: bool, x: string)
    requires Partition(t)
    ensures var t' := Apply(t, Add(name, scoped));
            && t'.live != [] && t'.live[0].scoped == scoped && t'.live[0].id !in Ids(t.live)
            && LookUp(t', x) == if x == name && name != [] then Some(t'.live[0].id) else LookUp(t, x)
  {
    hide Partition, Newest, Ids;
    var t' := Apply(t, Add(name, scoped));
    AddIsNew(t);
    NewestCons(t'.live[0], t.live);
  }

  /** A name added in a scope, which a type may have had before, stands for the type added last in it;
      after the scope it stands for what it did before. */
  lemma ScopeShadows(t: Table, ops: seq<Op>, x: string)
    requires Partition(t) && x != []
    requires forall i :: 0 <= i < |ops| ==> ops[i].Add? && ops[i].scoped
    ensures (exists i :: 0 <= i < |ops| && ops[i].name == x) ==>
              LookUp(Run(t, ops), x).Some? && LookUp(Run(t, ops), x).value !in Ids(t.live)
    ensures (forall i :: 0 <= i < |ops| ==> ops[i].name != x) ==> LookUp(Run(t, ops), x) == LookUp(t, x)
    ensures LookUp(Apply(Run(t, ops), ScopeOut(Cookie(t))), x) == LookUp(t, x)
  {
    hide Newest, Partition, Apply, Ids;
    ScopeRestores(t, ops);
    ShadowedInside(t, ops, x);
  }

  lemma {:induction false} ShadowedInside(t: Table, ops: seq<Op>, x: string)
    requires Partition(t) && x != []
    requires forall i :: 0 <= i < |ops| ==> ops[i].Add? && ops[i].scoped
    ensures Partition(Run(t, ops)) && forall id :: id in Ids(t.live) ==> id in Ids(Run(t, ops).live)
    ensures (exists i :: 0 <= i < |ops| && ops[i].name == x) ==>
              LookUp(Run(t, ops), x).Some? && LookUp(Run(t, ops), x).value !in Ids(t.live)
    ensures (forall i :: 0 <= i < |ops| ==> ops[i].name != x) ==> LookUp(Run(t, ops), x) == LookUp(t, x)
    decreases |ops|
  {
    hide Newest, Partition, Apply, Ids, LookUp;
    if ops != [] {
      var n := |ops| - 1;
      var before, op := ops[..n], ops[n];
      ShadowedInside(t, before, x);
      var s := Run(t, before);
      ApplyKeepsPartition(s, op);
      AddFinds(s, op.name, op.scoped, x);
      AddKeepsIds(s, op.name, op.scoped);
      if i :| 0 <= i < n && ops[i].name == x {
        assert before[i].name == x;
      }
      assert forall i :: 0 <= i < n ==> before[i] == ops[i];
    }
  }

  lemma AddKeepsIds(t: Table, name: string, scoped: bool)
    ensures forall id :: id in Ids(t.live) ==> id in Ids(Apply(t, Add(name, scoped)).live)
  {
    hide Ids;
    IdsCons(Apply(t, Add(name, scoped)).live[0], t.live);
  }

  lemma NewestWithoutAt(live: seq<Type>, k: nat, x: string)
    requires k < |live| && Distinct(Ids(live))
    ensures Found(Newest(live[..k] + live[k + 1..]), x)
            == Found(AfterRemoval(Newest(live), live[k], FirstNamed(live[k + 1..], live[k].name)), x)
  {
    hide Newest, FirstNamed, Ids, Distinct, Found, AfterRemoval;
    FirstNamedWithout(live, k, x);
    NewestFound(live, x);
    NewestFound(live[..k] + live[k + 1..], x);
    FoundAfterRemoval(Newest(live), live[k], FirstNamed(live[k + 1..], live[k].name), x);
  }

  lemma MapsEqual(a: map<string, nat>, b: map<string, nat>)
    requires forall x :: x in a <==> x in b
    requires forall x :: x in b ==> a[x] == b[x]
    ensures a == b
  {
  }

  lemma NewestWithout(live: seq<Type>, k: nat)
    requires k < |live| && Distinct(Ids(live))
    ensures Newest(live[..k] + live[k + 1..])
            == AfterRemoval(Newest(live), live[k], FirstNamed(live[k + 1..], live[k].name))
  {
    hide Newest, FirstNamed, Ids, Distinct, AfterRemoval;
    var w, m' := Newest(live[..k] + live[k + 1..]),
                 AfterRemoval(Newest(live), live[k], FirstNamed(live[k + 1..], live[k].name));
    forall x
      ensures x in w <==> x in m'
      ensures x in m' ==> w[x] == m'[x]
    {
      NewestWithoutAt(live, k, x);
    }
    MapsEqual(w, m');
  }

  lemma FirstNamedAt(live: seq<Type>, i: nat, n: string)
    requires i <= |live|
    ensures FirstNamed(live[i..], n)
            == if i == |live| then None
               else if live[i].name == n then Some(live[i].id)
               else FirstNamed(live[i + 1..], n)
  {
    if i < |live| {
      assert live[i..][1..] == live[i + 1..];
    }
  }

  // ---------------------------------------------------------------- the imperative form

  /** A chain link: the number of the next slot, or -1 at the end; in a live slot, with the flag
      that the slot itself is scoped. */
  datatype Link = Link(scoped: bool, id: int)

  /** A slot; live says that it has a factory. */
  datatype Slot = Slot(live: bool, name: string, next: Link)

  function IdAt(live: seq<Type>, i: nat): (id: int)
  {
    if i < |live| then live[i].id else -1
  }

  function FreeAt(free: seq<nat>, i: nat): (id: int)
  {
    if i < |free| then free[i] else -1
  }

  /** The slots chain up the live types. */
  ghost predicate LiveChain(slots: seq<Slot>, live: seq<Type>)
  {
    && (forall i :: 0 <= i < |live| ==> live[i].id < |slots|)
    && (forall i {:trigger slots[live[i].id]} :: 0 <= i < |live| ==>
          slots[live[i].id] == Slot(true, live[i].name, Link(live[i].scoped, IdAt(live, i + 1))))
  }

  ghost predicate FreeChain(slots: seq<Slot>, free: seq<nat>)
  {
    && (forall i :: 0 <= i < |free| ==> free[i] < |slots|)
    && (forall i {:trigger slots[free[i]]} :: 0 <= i < |free| ==>
          slots[free[i]] == Slot(false, [], Link(false, FreeAt(free, i + 1))))
  }

  /** What points at the k-th live type: the head, or the type before it. */
  function PointerTo(live: seq<Type>, k: nat): (prev: int)
    requires k <= |live|
  {
    if k == 0 then -1 else live[k - 1].id
  }

  /** A slot is live exactly if its number is. */
  lemma LiveOrNot(slots: seq<Slot>, t: Table, id: int)
    requires Partition(t) && t.size == |slots| && LiveChain(slots, t.live) && FreeChain(slots, t.free)
    ensures id in Ids(t.live) <==> 0 <= id < |slots| && slots[id].live
  {
    if id in Ids(t.live) {
      var i :| 0 <= i < |t.live| && Ids(t.live)[i] == id;
      assert slots[t.live[i].id].live;
    } else if 0 <= id < |slots| {
      assert id in Numbers(t);
      var i :| 0 <= i < |t.free| && t.free[i] == id;
      assert !slots[t.free[i]].live;
    }
  }

  lemma WithoutAt(t: Table, k: nat)
    requires Partition(t) && k < |t.live|
    ensures Without(t.live, t.live[k].id) == t.live[..k] + t.live[k + 1..]
  {
    AddIsNew(t);
    WithoutFirst(t.live, k);
  }

  lemma {:induction false} WithoutFirst(live: seq<Type>, k: nat)
    requires k < |live| && forall j :: 0 <= j < k ==> live[j].id != live[k].id
    ensures Without(live, live[k].id) == live[..k] + live[k + 1..]
  {
    if k > 0 {
      WithoutFirst(live[1..], k - 1);
      assert live[1..][..k - 1] == live[1..k] && live[1..][k..] == live[k + 1..];
      assert [live[0]] + live[1..k] == live[..k];
    }
  }

  lemma NewestWithoutLive(t: Table, k: nat)
    requires Partition(t) && k < |t.live|
    ensures Newest(t.live[..k] + t.live[k + 1..])
            == AfterRemoval(Newest(t.live), t.live[k], FirstNamed(t.live[k + 1..], t.live[k].name))
  {
    AddIsNew(t);
    NewestWithout(t.live, k);
  }

  /** The slots after unlinking the k-th live one and pushing it on the free list. */
  function Unlinked(slots: seq<Slot>, prev: int, removed: nat, free: int): (s: seq<Slot>)
    requires -1 <= prev < |slots| && removed < |slots|
    ensures |s| == |slots|
  {
    var s := if prev < 0 then slots
             else slots[prev := slots[prev].(next := Link(slots[prev].next.scoped, slots[removed].next.id))];
    s[removed := Slot(false, [], Link(false, free))]
  }

  lemma SlotAt(slots: seq<Slot>, live: seq<Type>, i: nat)
    requires LiveChain(slots, live) && i < |live|
    ensures live[i].id < |slots|
    ensures slots[live[i].id] == Slot(true, live[i].name, Link(live[i].scoped, IdAt(live, i + 1)))
  {
  }

  ghost predicate DistinctTypes(live: seq<Type>)
  {
    forall i, j :: 0 <= i < j < |live| ==> live[i].id != live[j].id
  }

  lemma UnlinkedSlot(slots: seq<Slot>, live: seq<Type>, k: nat, free: int, i: nat)
    requires LiveChain(slots, live) && DistinctTypes(live) && k < |live| && i < |live| && i != k
    requires live[k].id < |slots| && -1 <= PointerTo(live, k) < |slots|
    ensures live[i].id < |slots|
    ensures Unlinked(slots, PointerTo(live, k), live[k].id, free)[live[i].id]
            == Slot(true, live[i].name,
                    Link(live[i].scoped, if i + 1 == k then IdAt(live, k + 1) else IdAt(live, i + 1)))
  {
    SlotAt(slots, live, i);
    SlotAt(slots, live, k);
    assert live[i].id != live[k].id;
    if i + 1 != k && k > 0 {
      assert live[i].id != live[k - 1].id;
    }
  }

  lemma UnlinkedLive(slots: seq<Slot>, live: seq<Type>, k: nat, free: int)
    requires LiveChain(slots, live) && DistinctTypes(live) && k < |live|
    ensures var prev, removed := PointerTo(live, k), live[k].id;
            -1 <= prev < |slots| && removed < |slots|
            && LiveChain(Unlinked(slots, prev, removed, free), live[..k] + live[k + 1..])
  {
    var prev, removed, live' := PointerTo(live, k), live[k].id, live[..k] + live[k + 1..];
    SlotAt(slots, live, k);
    if k > 0 {
      SlotAt(slots, live, k - 1);
    }
    var s := Unlinked(slots, prev, removed, free);
    hide Unlinked, DistinctTypes;
    forall i | 0 <= i < |live'|
      ensures live'[i].id < |s|
      ensures s[live'[i].id] == Slot(true, live'[i].name, Link(live'[i].scoped, IdAt(live', i + 1)))
    {
      var j := if i < k then i else i + 1;
      assert live'[i] == live[j];
      UnlinkedSlot(slots, live, k, free, j);
    }
  }

  lemma UnlinkedFree(slots: seq<Slot>, free: seq<nat>, prev: int, removed: nat)
    requires FreeChain(slots, free) && -1 <= prev < |slots| && removed < |slots|
    requires removed !in free && prev !in free
    ensures FreeChain(Unlinked(slots, prev, removed, FreeAt(free, 0)), [removed] + free)
  {
    var free', s := [removed] + free, Unlinked(slots, prev, removed, FreeAt(free, 0));
    forall i | 0 <= i < |free'|
      ensures free'[i] < |s| && s[free'[i]] == Slot(false, [], Link(false, FreeAt(free', i + 1)))
    {
      if i > 0 {
        assert free'[i] == free[i - 1] && FreeAt(free', i + 1) == FreeAt(free, i);
      }
    }
  }

  lemma RemoveChains(slots: seq<Slot>, t: Table, k: nat)
    requires Partition(t) && t.size == |slots| && LiveChain(slots, t.live) && FreeChain(slots, t.free)
    requires k < |t.live|
    ensures var prev, removed, live' := PointerTo(t.live, k), t.live[k].id, t.live[..k] + t.live[k + 1..];
            && -1 <= prev < |slots| && removed < |slots| && prev != removed
            && slots[removed].next.id == IdAt(t.live, k + 1) && slots[removed].name == t.live[k].name
            && IdAt(live', 0) == (if k > 0 then IdAt(t.live, 0) else IdAt(t.live, 1))
            && var s := Unlinked(slots, prev, removed, FreeAt(t.free, 0));
               LiveChain(s, live') && FreeChain(s, [removed] + t.free)
  {
    hide Partition, LiveChain, FreeChain, Unlinked;
    AddIsNew(t);
    SlotAt(slots, t.live, k);
    if k > 0 {
      SlotAt(slots, t.live, k - 1);
    }
    UnlinkedLive(slots, t.live, k, FreeAt(t.free, 0));
    UnlinkedFree(slots, t.free, PointerTo(t.live, k), t.live[k].id);
  }

  /** Part of the way through leaving a scope: the first k live types have been kept, and what is
      still to be swept accounts for the rest. */
  ghost predicate Sweep(t: Table, now: Table, k: nat, cookie: int)
  {
    && k <= |now.live| && now.size == t.size
    && (forall j :: 0 <= j < k ==> !now.live[j].scoped)
    && Unscoped(t.live, cookie) == now.live[..k] + Unscoped(now.live[k..], cookie)
    && Freed(t.live, cookie) + t.free == Freed(now.live[k..], cookie) + now.free
  }

  lemma SweepStarts(t: Table, cookie: int)
    ensures Sweep(t, t, 0, cookie)
  {
    assert t.live[0..] == t.live;
    assert t.live[..0] + Unscoped(t.live, cookie) == Unscoped(t.live, cookie);
  }

  lemma SweepStep(t: Table, now: Table, k: nat, cookie: int)
    requires Sweep(t, now, k, cookie) && k < |now.live| && now.live[k].id != cookie
    ensures !now.live[k].scoped ==> Sweep(t, now, k + 1, cookie)
    ensures now.live[k].scoped ==>
              Sweep(t, Table(now.live[..k] + now.live[k + 1..], [now.live[k].id] + now.free, now.size), k, cookie)
  {
    var e := now.live[k];
    assert now.live[k..][0] == e && now.live[k..][1..] == now.live[k + 1..];
    if e.scoped {
      var live' := now.live[..k] + now.live[k + 1..];
      assert live'[..k] == now.live[..k] && live'[k..] == now.live[k + 1..];
      assert Freed(now.live[k..], cookie) + now.free == Freed(now.live[k + 1..], cookie) + ([e.id] + now.free);
    } else {
      assert now.live[..k + 1] == now.live[..k] + [e];
      assert now.live[..k] + ([e] + Unscoped(now.live[k + 1..], cookie))
          == now.live[..k + 1] + Unscoped(now.live[k + 1..], cookie);
      assert Freed(now.live[k..], cookie) == Freed(now.live[k + 1..], cookie) + [];
    }
  }

  lemma SweepKept(t: Table, now: Table, k: nat, cookie: int)
    requires Sweep(t, now, k, cookie) && k > 0
    ensures k <= |now.live| && !now.live[k - 1].scoped
  {
  }

  lemma SweepDone(t: Table, now: Table, k: nat, cookie: int)
    requires Sweep(t, now, k, cookie) && (IdAt(now.live, k) == cookie || IdAt(now.live, k) == -1)
    ensures now == Apply(t, ScopeOut(cookie))
  {
    assert now.live[..k] + now.live[k..] == now.live;
    assert [] + now.free == now.free;
  }

  lemma InIds(live: seq<Type>, k: nat)
    requires k < |live|
    ensures live[k].id in Ids(live)
  {
    assert Ids(live)[k] == live[k].id;
  }

  class Lexer {
    var slots: seq<Slot>
    var last: int
    var free: int
    var names: map<string, nat>
    ghost var table: Table

    /** The slots, the two list heads and the map represent the table. */
    ghost predicate Valid()
      reads this
    {
      && table.size == |slots| && Partition(table)
      && last == IdAt(table.live, 0) && LiveChain(slots, table.live)
      && free == FreeAt(table.free, 0) && FreeChain(slots, table.free)
      && names == Newest(table.live)
    }

    constructor ()
      ensures Valid() && table == EMPTY
    {
      slots, last, free, names, table := [], -1, -1, map[], EMPTY;
    }

    method AddElementType(name: string, scoped: bool) returns (tid: nat)
      requires Valid()
      modifies this
      ensures Valid() && table == Apply(old(table), Add(name, scoped)) && tid == table.live[0].id
    {
      hide Partition, LiveChain, FreeChain, Newest;
      ghost var t, s := table, slots;
      ApplyKeepsPartition(t, Add(name, scoped));
      table := Apply(t, Add(name, scoped));
      AddChains(s, t, name, scoped);
      NewestCons(table.live[0], t.live);
      if free < 0 {
        tid := |slots|;
        slots := slots + [Slot(false, [], Link(false, -1))];
      } else {
        tid := free;
        free := slots[tid].next.id;
      }
      slots := slots[tid := Slot(true, name, Link(scoped, last))];
      if name != [] {
        names := names[name := tid];
      }
      last := tid;
    }

    /** The number a pointer into the live chain points at: -1 stands for the head, a type's number
        for its link. */
    function Deref(prev: int): (id: int)
      requires -1 <= prev < |slots|
      reads this
    {
      if prev < 0 then last else slots[prev].next.id
    }

    /** Where a live type is pointed at from; its place in the chain is k. */
    method FindPrevious(removed: nat) returns (prev: int, ghost k: nat)
      requires Valid() && removed in Ids(table.live)
      ensures k < |table.live| && table.live[k].id == removed && prev == PointerTo(table.live, k)
    {
      hide Partition, LiveChain, FreeChain, Newest, Ids;
      prev, k := -1, 0;
      while Deref(prev) != -1 && Deref(prev) != removed
        invariant k <= |table.live| && prev == PointerTo(table.live, k)
        invariant -1 <= prev < |slots| && Deref(prev) == IdAt(table.live, k)
        invariant forall j :: 0 <= j < k ==> table.live[j].id != removed
        decreases |table.live| - k
      {
        SlotAt(slots, table.live, k);
        prev := Deref(prev);
        k := k + 1;
      }
    }

    /** The next older type called name behind the k-th, or -1. */
    method FindOlder(removed: nat, name: string, ghost k: nat) returns (trav: int)
      requires Valid() && k < |table.live| && table.live[k].id == removed
      ensures trav == -1 <==> FirstNamed(table.live[k + 1..], name) == None
      ensures trav != -1 ==> trav >= 0 && FirstNamed(table.live[k + 1..], name) == Some(trav)
    {
      hide Partition, FreeChain, Newest, FirstNamed;
      assert slots[table.live[k].id].next.id == IdAt(table.live, k + 1);
      trav := slots[removed].next.id;
      ghost var i := k + 1;
      while trav != -1 && slots[trav].name != name
        invariant k < i <= |table.live| && trav == IdAt(table.live, i)
        invariant FirstNamed(table.live[k + 1..], name) == FirstNamed(table.live[i..], name)
        decreases |table.live| - i
      {
        FirstNamedAt(table.live, i, name);
        trav := slots[trav].next.id;
        i := i + 1;
      }
      FirstNamedAt(table.live, i, name);
    }

    /** remove_element_type; the hint is a pointer into the live chain. */
    method RemoveElementType(removed: int, hint: Option<int>) returns (r: int)
      requires Valid()
      requires hint.Some? ==> exists k :: 0 <= k <= |table.live| && hint.value == PointerTo(table.live, k)
      modifies this
      ensures Valid() && table == Apply(old(table), Remove(removed))
      ensures r == if removed in Ids(old(table.live)) then 0 else -1
    {
      hide Partition, LiveChain, FreeChain, Newest, Without, FirstNamed, Ids;
      LiveOrNot(slots, table, removed);
      if removed < 0 || removed >= |slots| || !slots[removed].live {
        return -1;
      }
      ghost var t, s := table, slots;
      var prev, k := Locate(removed, hint);
      var older := FindOlder(removed, slots[removed].name, k);
      RemoveChains(s, t, k);
      NewestWithoutLive(t, k);
      WithoutAt(t, k);
      ApplyKeepsPartition(t, Remove(removed));
      // take it out of the chain
      if prev < 0 {
        last := slots[removed].next.id;
      } else {
        slots := slots[prev := slots[prev].(next := Link(slots[prev].next.scoped, slots[removed].next.id))];
      }
      // let the next older type of that name, if any, answer to it
      var name := slots[removed].name;
      if name in names && names[name] == removed {
        names := if older == -1 then names - {name} else names[name := older];
      }
      slots := slots[removed := Slot(false, [], Link(false, free))];
      free := removed;
      table := Apply(t, Remove(removed));
      r := 0;
    }

    /** Use the hint if it points at the type, or else search. */
    method Locate(removed: nat, hint: Option<int>) returns (prev: int, ghost k: nat)
      requires Valid() && removed in Ids(table.live)
      requires hint.Some? ==> exists k :: 0 <= k <= |table.live| && hint.value == PointerTo(table.live, k)
      ensures k < |table.live| && table.live[k].id == removed && prev == PointerTo(table.live, k)
    {
      hide Partition, FreeChain, Newest;
      if hint.Some? {
        ghost var j :| 0 <= j <= |table.live| && hint.value == PointerTo(table.live, j);
        assert j > 0 ==> slots[table.live[j - 1].id].next.id == IdAt(table.live, j);
        if Deref(hint.value) == removed {
          return hint.value, j;
        }
      }
      prev, k := FindPrevious(removed);
    }

    /** lexical_scoping_in. */
    method LexicalScopingIn() returns (cookie: int)
      requires Valid()
      ensures cookie == Cookie(table)
    {
      cookie := last;
    }

    /** lexical_scoping_out. */
    method LexicalScopingOut(cookie: int)
      requires Valid()
      modifies this
      ensures Valid() && table == Apply(old(table), ScopeOut(cookie))
    {
      hide Partition, LiveChain, FreeChain, Newest, Sweep, Without, Ids;
      ghost var t, k := table, 0;
      SweepStarts(t, cookie);
      var prev := -1;
      while Deref(prev) != cookie && Deref(prev) != -1
        invariant k <= |table.live| && Valid() && Sweep(t, table, k, cookie) && prev == PointerTo(table.live, k)
        invariant -1 <= prev < |slots| && Deref(prev) == IdAt(table.live, k)
        decreases |table.live| - k
      {
        if k > 0 {
          SlotAt(slots, table.live, k - 1);
          SweepKept(t, table, k, cookie);
        }
        assert prev >= 0 ==> !slots[prev].next.scoped;
        var id := Deref(prev);
        SlotAt(slots, table.live, k);
        SweepStep(t, table, k, cookie);
        if slots[id].next.scoped {
          InIds(table.live, k);
          WithoutAt(table, k);
          var _ := RemoveElementType(id, Some(prev));
          if k > 0 {
            SlotAt(slots, table.live, k - 1);
          }
        } else {
          prev := id;
          k := k + 1;
        }
      }
      SweepDone(t, table, k, cookie);
    }
  }

  lemma NewestCons(e: Type, live: seq<Type>)
    ensures Newest([e] + live) == if e.name == [] then Newest(live) else Newest(live)[e.name := e.id]
  {
    assert ([e] + live)[1..] == live;
  }

  /** The slots after putting a new live type into slot tid, at the head of the chain. */
  function Linked(slots: seq<Slot>, tid: nat, name: string, scoped: bool, last: int): (s: seq<Slot>)
    requires tid <= |slots|
    ensures |s| == if tid == |slots| then |slots| + 1 else |slots|
  {
    var s := if tid == |slots| then slots + [Slot(false, [], Link(false, -1))] else slots;
    s[tid := Slot(true, name, Link(scoped, last))]
  }

  lemma LinkedLive(slots: seq<Slot>, live: seq<Type>, tid: nat, name: string, scoped: bool)
    requires LiveChain(slots, live) && tid <= |slots| && tid !in Ids(live)
    ensures LiveChain(Linked(slots, tid, name, scoped, IdAt(live, 0)), [Type(tid, name, scoped)] + live)
  {
    var s, live' := Linked(slots, tid, name, scoped, IdAt(live, 0)), [Type(tid, name, scoped)] + live;
    forall i | 0 <= i < |live'|
      ensures live'[i].id < |s|
      ensures s[live'[i].id] == Slot(true, live'[i].name, Link(live'[i].scoped, IdAt(live', i + 1)))
    {
      if i > 0 {
        SlotAt(slots, live, i - 1);
        assert live'[i] == live[i - 1] && IdAt(live', i + 1) == IdAt(live, i);
        assert Ids(live)[i - 1] == live[i - 1].id;
      }
    }
  }

  lemma LinkedFree(slots: seq<Slot>, free: seq<nat>, tid: nat, name: string, scoped: bool, last: int)
    requires FreeChain(slots, free) && tid <= |slots|
    requires if free == [] then tid == |slots| else tid == free[0] && tid !in free[1..]
    ensures FreeChain(Linked(slots, tid, name, scoped, last), if free == [] then [] else free[1..])
    ensures free != [] ==> tid < |slots| && slots[tid].next.id == FreeAt(free, 1)
  {
    if free != [] {
      assert slots[free[0]].next.id == FreeAt(free, 1);
      var s, free' := Linked(slots, tid, name, scoped, last), free[1..];
      forall i | 0 <= i < |free'|
        ensures free'[i] < |s| && s[free'[i]] == Slot(false, [], Link(false, FreeAt(free', i + 1)))
      {
        assert free'[i] == free[i + 1] && FreeAt(free', i + 1) == FreeAt(free, i + 2);
        assert slots[free[i + 1]] == Slot(false, [], Link(false, FreeAt(free, i + 2)));
      }
    }
  }

  lemma AddChains(slots: seq<Slot>, t: Table, name: string, scoped: bool)
    requires Partition(t) && t.size == |slots| && LiveChain(slots, t.live) && FreeChain(slots, t.free)
    ensures var t' := Apply(t, Add(name, scoped));
            var tid := t'.live[0].id;
            && tid <= |slots| && (t.free == [] <==> tid == |slots|)
            && (t.free != [] ==> slots[tid].next.id == FreeAt(t'.free, 0))
            && var s := Linked(slots, tid, name, scoped, IdAt(t.live, 0));
               |s| == t'.size && LiveChain(s, t'.live) && FreeChain(s, t'.free)
  {
    hide Partition, LiveChain, FreeChain, Linked;
    AddIsNew(t);
    var t' := Apply(t, Add(name, scoped));
    if t.free != [] {
      assert FreeAt(t'.free, 0) == FreeAt(t.free, 1);
      FreeInRange(slots, t.free);
    }
    LinkedLive(slots, t.live, t'.live[0].id, name, scoped);
    LinkedFree(slots, t.free, t'.live[0].id, name, scoped, IdAt(t.live, 0));
  }

  lemma FreeInRange(slots: seq<Slot>, free: seq<nat>)
    requires FreeChain(slots, free)
    ensures forall i :: 0 <= i < |free| ==> free[i] < |slots|
  {
  }

  /** The number that will be handed out next is not a live one, and heads the free list. */
  lemma AddIsNew(t: Table)
    requires Partition(t)
    ensures t.free == [] ==> t.size !in Ids(t.live)
    ensures t.free != [] ==> t.free[0] !in Ids(t.live) && t.free[0] !in t.free[1..]
    ensures forall i :: 0 <= i < |t.live| ==> t.live[i].id !in t.free && t.live[i].id < t.size
    ensures forall i, j :: 0 <= i < j < |t.live| ==> t.live[i].id != t.live[j].id
  {
    var ns, n := Numbers(t), |t.live|;
    forall i | 0 <= i < n
      ensures t.live[i].id !in t.free && t.live[i].id < t.size
    {
      assert ns[i] in ns;
      forall j | 0 <= j < |t.free|
        ensures t.live[i].id != t.free[j]
      {
        assert ns[i] != ns[n + j];
      }
    }
    forall i, j | 0 <= i < j < n
      ensures t.live[i].id != t.live[j].id
    {
      assert ns[i] != ns[j];
    }
    forall j | 1 <= j < |t.free|
      ensures t.free[0] != t.free[j]
    {
      assert ns[n] != ns[n + j];
    }
  }
}
