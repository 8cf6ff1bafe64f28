/** The gateway's address translation table, shared by a thread for outgoing packets, one for incoming
    packets and one for the controller. A mutex makes each look-up and each insertion one step; the
    copying of addresses into and out of an entry is outside the mutex, one step a byte. Any number of
    threads is allowed, each handling one request after another. */
module Nat {
  import opened Common
  const SLOTS: nat := 0xff

  type Addr = a: seq<nat> | |a| == 4 witness [0, 0, 0, 0]

  /** What an entry is looked up by, from the point of view of an outgoing packet. */
  datatype Key = Key(srcPort: nat, dst: Addr, dstPort: nat)

  function Bucket(key: Key): (b: nat)
  {
    key.dst[3]
  }

  /** A chained entry; next is -1 at the end of a chain. */
  datatype Node = Node(key: Key, src: Addr, next: int)

  datatype Request =
    | Record(key: Key, src: Addr)
    | Reply(key: Key)

  /** An outgoing packet is recorded under its ports and destination. */
  function Outgoing(srcPort: nat, src: Addr, dst: Addr, dstPort: nat): (r: Request)
  {
    Record(Key(srcPort, dst, dstPort), src)
  }

  /** The controller's WLAN_NAT_ADD uses its source port for both ports of the key. */
  function NatAdd(nwSrc: Addr, nwDst: Addr, tpSrc: nat, tpDst: nat): (r: Request)
  {
    Record(Key(tpSrc, nwDst, tpSrc), nwSrc)
  }

  /** An incoming packet is looked up with the two ends exchanged. */
  function Incoming(srcPort: nat, src: Addr, dstPort: nat): (r: Request)
  {
    Reply(Key(dstPort, src, srcPort))
  }

  /** Where a thread is. since is how many entries had been inserted when the thread found none. */
  datatype Pc =
    | Idle
    | Looking(r: Request)
    | LookingAgain(key: Key, src: Addr)
    | Inserting(node: nat, src: Addr, since: nat)
    | Writing(node: nat, src: Addr, done: nat)
    | Reading(node: nat, got: seq<nat>)

  /** A reply as it left: the address put into the packet, or None if it was not touched, and how many
      requests had been recorded by then. */
  datatype Sent = Sent(key: Key, to: Option<Addr>, at: nat)

  /** heads, nodes and threads are the program's; the rest is history: the entries inserted, oldest
      first, the Record requests begun, and the replies sent. */
  datatype State = State(
    heads: seq<int>, nodes: seq<Node>, threads: seq<Pc>,
    inserted: seq<nat>, recorded: seq<Request>, sent: seq<Sent>)

  // ---------------------------------------------------------------- chains

  /** Starting at n, the next fields lead through ids and end. */
  ghost predicate Linked(nodes: seq<Node>, n: int, ids: seq<nat>)
    decreases |ids|
  {
    if ids == [] then n == -1
    else n == ids[0] && ids[0] < |nodes| && Linked(nodes, nodes[ids[0]].next, ids[1..])
  }

  /** The entries of bucket b, newest first. */
  ghost function Chain(inserted: seq<nat>, nodes: seq<Node>, b: nat): (ids: seq<nat>)
    requires forall i :: 0 <= i < |inserted| ==> inserted[i] < |nodes|
  {
    if inserted == [] then []
    else
      var last := inserted[|inserted| - 1];
      var older := Chain(inserted[..|inserted| - 1], nodes, b);
      if Bucket(nodes[last].key) == b then [last] + older else older
  }

  /** The newest entry for key, or -1. */
  ghost function Newest(inserted: seq<nat>, nodes: seq<Node>, key: Key): (n: int)
    requires forall i :: 0 <= i < |inserted| ==> inserted[i] < |nodes|
    ensures n == -1 <==> forall i :: 0 <= i < |inserted| ==> nodes[inserted[i]].key != key
    ensures n != -1 ==> 0 <= n < |nodes| && nodes[n].key == key && n in inserted
  {
    if inserted == [] then -1
    else
      var last := inserted[|inserted| - 1];
      if nodes[last].key == key then last else Newest(inserted[..|inserted| - 1], nodes, key)
  }

  /** lookupNatMap's walk along a chain. */
  function Walk(nodes: seq<Node>, n: int, ghost ids: seq<nat>, key: Key): (m: int)
    requires Linked(nodes, n, ids)
    decreases |ids|
  {
    if n == -1 || nodes[n].key == key then n else Walk(nodes, nodes[n].next, ids[1..], key)
  }

  lemma {:induction false} WalkFindsNewest(inserted: seq<nat>, nodes: seq<Node>, n: int, key: Key)
    requires forall i :: 0 <= i < |inserted| ==> inserted[i] < |nodes|
    requires Linked(nodes, n, Chain(inserted, nodes, Bucket(key)))
    ensures Walk(nodes, n, Chain(inserted, nodes, Bucket(key)), key) == Newest(inserted, nodes, key)
    decreases |inserted|
  {
    if inserted != [] {
      var last, rest := inserted[|inserted| - 1], inserted[..|inserted| - 1];
      var ids, older := Chain(inserted, nodes, Bucket(key)), Chain(rest, nodes, Bucket(key));
      if Bucket(nodes[last].key) != Bucket(key) {
        WalkFindsNewest(rest, nodes, n, key);
      } else {
        assert ids[1..] == older;
        if nodes[last].key != key {
          WalkFindsNewest(rest, nodes, nodes[n].next, key);
        }
      }
    }
  }

  lemma {:induction false} LinkedElsewhere(nodes: seq<Node>, nodes': seq<Node>, n: int, ids: seq<nat>)
    requires Linked(nodes, n, ids) && |nodes| <= |nodes'|
    requires forall i :: 0 <= i < |ids| && ids[i] < |nodes| ==> nodes'[ids[i]].next == nodes[ids[i]].next
    ensures Linked(nodes', n, ids)
    decreases |ids|
  {
    if ids != [] {
      LinkedElsewhere(nodes, nodes', nodes[n].next, ids[1..]);
    }
  }

  lemma {:induction false} ChainElsewhere(inserted: seq<nat>, nodes: seq<Node>, nodes': seq<Node>, b: nat)
    requires forall i :: 0 <= i < |inserted| ==> inserted[i] < |nodes|
    requires |nodes| <= |nodes'| && forall i :: 0 <= i < |nodes| ==> nodes'[i].key == nodes[i].key
    ensures Chain(inserted, nodes', b) == Chain(inserted, nodes, b)
    decreases |inserted|
  {
    if inserted != [] {
      ChainElsewhere(inserted[..|inserted| - 1], nodes, nodes', b);
    }
  }

  lemma {:induction false} NewestElsewhere(inserted: seq<nat>, nodes: seq<Node>, nodes': seq<Node>, key: Key)
    requires forall i :: 0 <= i < |inserted| ==> inserted[i] < |nodes|
    requires |nodes| <= |nodes'| && forall i :: 0 <= i < |nodes| ==> nodes'[i].key == nodes[i].key
    ensures Newest(inserted, nodes', key) == Newest(inserted, nodes, key)
    decreases |inserted|
  {
    if inserted != [] {
      NewestElsewhere(inserted[..|inserted| - 1], nodes, nodes', key);
    }
  }

  lemma {:induction false} ChainIsInserted(inserted: seq<nat>, nodes: seq<Node>, b: nat)
    requires forall i :: 0 <= i < |inserted| ==> inserted[i] < |nodes|
    ensures forall i :: 0 <= i < |Chain(inserted, nodes, b)| ==> Chain(inserted, nodes, b)[i] in inserted
    decreases |inserted|
  {
    if inserted != [] {
      ChainIsInserted(inserted[..|inserted| - 1], nodes, b);
    }
  }

  // ---------------------------------------------------------------- what every step keeps

  /** The table has a slot for key: the last byte of the destination is not 255. */
  predicate InTable(key: Key)
  {
    Bucket(key) < SLOTS
  }

  ghost predicate Allocated(s: State)
  {
    && (forall i :: 0 <= i < |s.inserted| ==> s.inserted[i] < |s.nodes|)
    && (forall n :: 0 <= n < |s.nodes| ==> InTable(s.nodes[n].key))
    && |s.heads| == SLOTS
  }

  /** The chains hold exactly the inserted entries, newest first, each entry once. */
  ghost predicate Chained(s: State)
  {
    && Allocated(s) && Distinct(s.inserted)
    && forall b :: 0 <= b < SLOTS ==> Linked(s.nodes, s.heads[b], Chain(s.inserted, s.nodes, b))
  }

  /** v is zero, as calloc left it, or byte j of an address recorded for key. */
  ghost predicate Known(recorded: seq<Request>, key: Key, j: nat, v: nat)
    requires j < 4
  {
    v == 0 || exists i :: 0 <= i < |recorded| && recorded[i].Record? && recorded[i].key == key && recorded[i].src[j] == v
  }

  ghost predicate AllKnown(recorded: seq<Request>, key: Key, bytes: seq<nat>)
    requires |bytes| <= 4
  {
    forall j :: 0 <= j < |bytes| ==> Known(recorded, key, j, bytes[j])
  }

  ghost predicate Absent(s: State, key: Key, since: nat)
    requires Allocated(s) && since <= |s.inserted|
  {
    forall i :: 0 <= i < since ==> s.nodes[s.inserted[i]].key != key
  }

  /** What a thread at pc may rely on. */
  ghost predicate Holds(s: State, pc: Pc)
    requires Allocated(s)
  {
    match pc
    case Idle => true
    case Looking(r) => r.Record? ==> r in s.recorded
    case LookingAgain(key, src) => InTable(key) && Record(key, src) in s.recorded
    case Inserting(n, src, since) =>
      && n < |s.nodes| && n !in s.inserted && Record(s.nodes[n].key, src) in s.recorded
      && since <= |s.inserted| && Absent(s, s.nodes[n].key, since)
    case Writing(n, src, done) =>
      n < |s.nodes| && n in s.inserted && done < 4 && Record(s.nodes[n].key, src) in s.recorded
    case Reading(n, got) =>
      n < |s.nodes| && n in s.inserted && |got| < 4 && AllKnown(s.recorded, s.nodes[n].key, got)
  }

  ghost predicate Threads(s: State)
    requires Allocated(s)
  {
    && (forall t :: 0 <= t < |s.threads| ==> Holds(s, s.threads[t]))
    && (forall t, u :: 0 <= t < u < |s.threads| && s.threads[t].Inserting? && s.threads[u].Inserting?
         ==> s.threads[t].node != s.threads[u].node)
  }

  /** Addresses only ever come from requests for the same key. */
  ghost predicate Sourced(s: State)
  {
    && (forall n :: 0 <= n < |s.nodes| ==> AllKnown(s.recorded, s.nodes[n].key, s.nodes[n].src))
    && (forall i :: 0 <= i < |s.sent| && s.sent[i].to.Some? ==> AllKnown(s.recorded, s.sent[i].key, s.sent[i].to.value))
  }

  ghost predicate Inv(s: State)
  {
    Chained(s) && Threads(s) && Sourced(s)
  }

  // ---------------------------------------------------------------- the steps of a thread

  function At(s: State, t: nat, pc: Pc): (s': State)
    requires t < |s.threads|
  {
    s.(threads := s.threads[t := pc])
  }

  function Begin(s: State, t: nat, r: Request): (s': State)
    requires t < |s.threads|
  {
    At(s, t, Looking(r)).(recorded := if r.Record? then s.recorded + [r] else s.recorded)
  }

  function Lookup(s: State, key: Key): (n: int)
    requires Chained(s) && InTable(key)
  {
    Walk(s.nodes, s.heads[Bucket(key)], Chain(s.inserted, s.nodes, Bucket(key)), key)
  }

  lemma LookupIsNewest(s: State, key: Key)
    requires Chained(s) && InTable(key)
    ensures Lookup(s, key) == Newest(s.inserted, s.nodes, key)
  {
    WalkFindsNewest(s.inserted, s.nodes, s.heads[Bucket(key)], key);
  }

  function LookFirst(s: State, t: nat, r: Request): (s': State)
    requires Chained(s) && InTable(r.key) && t < |s.threads|
  {
    LookupIsNewest(s, r.key);
    var n := Lookup(s, r.key);
    match r
    case Record(key, src) => At(s, t, if n != -1 then Writing(n, src, 0) else LookingAgain(key, src))
    case Reply(key) =>
      if n != -1 then At(s, t, Reading(n, []))
      else At(s, t, Idle).(sent := s.sent + [Sent(key, None, |s.recorded|)])
  }

  /** addEntry looks again, and allocates an entry if there still is none. */
  function LookAgain(s: State, t: nat, key: Key, src: Addr): (s': State)
    requires Chained(s) && InTable(key) && t < |s.threads|
  {
    LookupIsNewest(s, key);
    var n := Lookup(s, key);
    if n != -1 then At(s, t, Writing(n, src, 0))
    else At(s, t, Inserting(|s.nodes|, src, |s.inserted|)).(nodes := s.nodes + [Node(key, [0, 0, 0, 0], -1)])
  }

  function Insert(s: State, t: nat, n: nat, src: Addr): (s': State)
    requires t < |s.threads| && n < |s.nodes| && InTable(s.nodes[n].key) && |s.heads| == SLOTS
  {
    var b := Bucket(s.nodes[n].key);
    At(s, t, Writing(n, src, 0)).(
      nodes := s.nodes[n := s.nodes[n].(next := s.heads[b])], heads := s.heads[b := n], inserted := s.inserted + [n])
  }

  function WriteByte(s: State, t: nat, n: nat, src: Addr, done: nat): (s': State)
    requires t < |s.threads| && n < |s.nodes| && done < 4
  {
    At(s, t, if done == 3 then Idle else Writing(n, src, done + 1)).(
      nodes := s.nodes[n := s.nodes[n].(src := s.nodes[n].src[done := src[done]])])
  }

  function ReadByte(s: State, t: nat, n: nat, got: seq<nat>): (s': State)
    requires t < |s.threads| && n < |s.nodes| && |got| < 4
  {
    var got' := got + [s.nodes[n].src[|got|]];
    if |got'| < 4 then At(s, t, Reading(n, got'))
    else At(s, t, Idle).(sent := s.sent + [Sent(s.nodes[n].key, Some(got'), |s.recorded|)])
  }

  /** Thread t is not about to look beside the table. */
  predicate Defined(s: State, t: nat)
  {
    t < |s.threads| && (s.threads[t].Looking? ==> InTable(s.threads[t].r.key))
  }

  /** Thread t makes its next step; r is its next request if it is idle. */
  function Step(s: State, t: nat, r: Request): (s': State)
    requires Inv(s) && Defined(s, t)
  {
    assert Holds(s, s.threads[t]);
    match s.threads[t]
    case Idle => Begin(s, t, r)
    case Looking(q) => LookFirst(s, t, q)
    case LookingAgain(key, src) => LookAgain(s, t, key, src)
    case Inserting(n, src, _) => Insert(s, t, n, src)
    case Writing(n, src, done) => WriteByte(s, t, n, src, done)
    case Reading(n, got) => ReadByte(s, t, n, got)
  }

  // ---------------------------------------------------------------- every step keeps the invariant

  ghost predicate Extends(s: State, s': State)
  {
    && |s.nodes| <= |s'.nodes| && (forall n :: 0 <= n < |s.nodes| ==> s'.nodes[n].key == s.nodes[n].key)
    && s.recorded <= s'.recorded && s.inserted <= s'.inserted
  }

  lemma KnownGrows(recorded: seq<Request>, recorded': seq<Request>, key: Key, bytes: seq<nat>)
    requires |bytes| <= 4 && recorded <= recorded' && AllKnown(recorded, key, bytes)
    ensures AllKnown(recorded', key, bytes)
  {
    forall j | 0 <= j < |bytes|
      ensures Known(recorded', key, j, bytes[j])
    {
      assert Known(recorded, key, j, bytes[j]);
      if bytes[j] != 0 {
        var i :| 0 <= i < |recorded| && recorded[i].Record? && recorded[i].key == key && recorded[i].src[j] == bytes[j];
        assert recorded'[i] == recorded[i];
      }
    }
  }

  /** What a thread relies on is not disturbed by the others. */
  lemma HoldsStill(s: State, s': State, pc: Pc)
    requires Allocated(s) && Allocated(s') && Extends(s, s') && Holds(s, pc)
    requires pc.Inserting? ==> pc.node !in s'.inserted
    ensures Holds(s', pc)
  {
    hide AllKnown;
    if pc.Reading? {
      KnownGrows(s.recorded, s'.recorded, s.nodes[pc.node].key, pc.got);
    }
  }

  lemma OthersHold(s: State, s': State, t: nat)
    requires Allocated(s) && Allocated(s') && Extends(s, s') && Threads(s)
    requires t < |s.threads| == |s'.threads| && s'.threads == s.threads[t := s'.threads[t]]
    requires Holds(s', s'.threads[t])
    requires s'.inserted != s.inserted ==> s.threads[t].Inserting? && s'.inserted == s.inserted + [s.threads[t].node]
    requires s'.threads[t].Inserting? ==> s'.threads[t].node >= |s.nodes|
    ensures Threads(s')
  {
    hide Holds;
    forall u | 0 <= u < |s'.threads|
      ensures Holds(s', s'.threads[u])
    {
      if u != t {
        assert Holds(s, s.threads[u]);
        if s.threads[u].Inserting? {
          InsertingIsPrivate(s, s.threads[u]);
        }
        HoldsStill(s, s', s.threads[u]);
      }
    }
    forall u | 0 <= u < |s'.threads| && u != t && s'.threads[u].Inserting? && s'.threads[t].Inserting?
      ensures s'.threads[u].node != s'.threads[t].node
    {
      assert Holds(s, s.threads[u]);
      InsertingIsPrivate(s, s.threads[u]);
    }
  }

  lemma InsertingIsPrivate(s: State, pc: Pc)
    requires Allocated(s) && Holds(s, pc) && pc.Inserting?
    ensures pc.node < |s.nodes| && pc.node !in s.inserted
  {
  }

  lemma SourcedStill(s: State, s': State)
    requires Sourced(s) && s.recorded <= s'.recorded && s'.nodes == s.nodes && s'.sent == s.sent
    ensures Sourced(s')
  {
    hide AllKnown;
    forall n | 0 <= n < |s.nodes|
      ensures AllKnown(s'.recorded, s.nodes[n].key, s.nodes[n].src)
    {
      KnownGrows(s.recorded, s'.recorded, s.nodes[n].key, s.nodes[n].src);
    }
    forall i | 0 <= i < |s.sent| && s.sent[i].to.Some?
      ensures AllKnown(s'.recorded, s.sent[i].key, s.sent[i].to.value)
    {
      KnownGrows(s.recorded, s'.recorded, s.sent[i].key, s.sent[i].to.value);
    }
  }

  /** Changing no next field and inserting nothing leaves the chains as they are. */
  lemma ChainedStill(s: State, s': State)
    requires Chained(s) && Allocated(s') && s'.heads == s.heads && s'.inserted == s.inserted && Extends(s, s')
    requires forall n :: 0 <= n < |s.nodes| ==> s'.nodes[n].next == s.nodes[n].next
    ensures Chained(s')
  {
    hide Linked, Chain;
    forall b | 0 <= b < SLOTS
      ensures Linked(s'.nodes, s'.heads[b], Chain(s'.inserted, s'.nodes, b))
    {
      ChainElsewhere(s.inserted, s.nodes, s'.nodes, b);
      LinkedElsewhere(s.nodes, s'.nodes, s.heads[b], Chain(s.inserted, s.nodes, b));
    }
  }

  lemma InsertChains(s: State, t: nat, n: nat, src: Addr)
    requires Chained(s) && t < |s.threads| && n < |s.nodes| && n !in s.inserted
    ensures Chained(Insert(s, t, n, src))
  {
    var s' := Insert(s, t, n, src);
    assert Allocated(s');
    var b0 := Bucket(s.nodes[n].key);
    hide Linked, Chain;
    forall b | 0 <= b < SLOTS
      ensures Linked(s'.nodes, s'.heads[b], Chain(s'.inserted, s'.nodes, b))
    {
      ChainElsewhere(s.inserted, s.nodes, s'.nodes, b);
      ChainIsInserted(s.inserted, s.nodes, b);
      LinkedElsewhere(s.nodes, s'.nodes, s.heads[b], Chain(s.inserted, s.nodes, b));
      ChainMore(s.inserted, s'.nodes, n, b);
      if b == b0 {
        LinkedMore(s'.nodes, n, Chain(s.inserted, s.nodes, b));
      }
    }
  }

  lemma ChainMore(inserted: seq<nat>, nodes: seq<Node>, n: nat, b: nat)
    requires n < |nodes| && forall i :: 0 <= i < |inserted| ==> inserted[i] < |nodes|
    ensures Chain(inserted + [n], nodes, b)
            == if Bucket(nodes[n].key) == b then [n] + Chain(inserted, nodes, b) else Chain(inserted, nodes, b)
  {
    assert (inserted + [n])[..|inserted|] == inserted;
  }

  lemma LinkedMore(nodes: seq<Node>, n: nat, ids: seq<nat>)
    requires n < |nodes| && Linked(nodes, nodes[n].next, ids)
    ensures Linked(nodes, n, [n] + ids)
  {
    assert ([n] + ids)[1..] == ids;
  }

  lemma BeginKeepsInv(s: State, t: nat, r: Request)
    requires Inv(s) && t < |s.threads|
    ensures Inv(Begin(s, t, r))
  {
    hide Chained, Sourced, Threads, Linked, Chain;
    var s' := Begin(s, t, r);
    ChainedIsAllocated(s);
    ChainedStill(s, s');
    OthersHold(s, s', t);
    SourcedStill(s, s');
  }

  lemma ChainedIsAllocated(s: State)
    requires Chained(s)
    ensures Allocated(s)
  {
  }

  lemma HoldsAt(s: State, t: nat)
    requires Inv(s) && t < |s.threads|
    ensures Holds(s, s.threads[t])
  {
  }

  lemma LookFirstKeepsInv(s: State, t: nat, r: Request)
    requires Inv(s) && t < |s.threads| && s.threads[t] == Looking(r) && InTable(r.key)
    ensures Inv(LookFirst(s, t, r))
  {
    HoldsAt(s, t);
    ChainedIsAllocated(s);
    LookupIsNewest(s, r.key);
    hide Chained, Sourced, Threads, Linked, Chain, Lookup;
    var s' := LookFirst(s, t, r);
    ChainedStill(s, s');
    OthersHold(s, s', t);
    if s'.sent == s.sent {
      SourcedStill(s, s');
    } else {
      SentMore(s, s', Sent(r.key, None, |s.recorded|));
    }
  }

  lemma SentMore(s: State, s': State, e: Sent)
    requires Sourced(s) && s'.recorded == s.recorded && s'.nodes == s.nodes && s'.sent == s.sent + [e]
    requires e.to.Some? ==> AllKnown(s.recorded, e.key, e.to.value)
    ensures Sourced(s')
  {
    hide AllKnown;
  }

  lemma LookAgainKeepsInv(s: State, t: nat, key: Key, src: Addr)
    requires Inv(s) && t < |s.threads| && s.threads[t] == LookingAgain(key, src) && InTable(key)
    ensures Inv(LookAgain(s, t, key, src))
  {
    HoldsAt(s, t);
    ChainedIsAllocated(s);
    LookupIsNewest(s, key);
    hide Chained, Sourced, Threads, Linked, Chain, Lookup;
    var s' := LookAgain(s, t, key, src);
    assert forall i :: 0 <= i < |s.inserted| ==> s.inserted[i] < |s.nodes|;
    ChainedStill(s, s');
    OthersHold(s, s', t);
    if s'.nodes == s.nodes {
      SourcedStill(s, s');
    } else {
      NodesMore(s, s');
    }
  }

  lemma NodesMore(s: State, s': State)
    requires Sourced(s) && s'.recorded == s.recorded && s'.sent == s.sent
    requires |s'.nodes| == |s.nodes| + 1 && s'.nodes[..|s.nodes|] == s.nodes
    requires s'.nodes[|s.nodes|].src == [0, 0, 0, 0]
    ensures Sourced(s')
  {
    forall n | 0 <= n < |s'.nodes|
      ensures AllKnown(s'.recorded, s'.nodes[n].key, s'.nodes[n].src)
    {
      if n < |s.nodes| {
        assert s'.nodes[n] == s.nodes[n];
      }
    }
  }

  lemma InsertKeepsInv(s: State, t: nat, n: nat, src: Addr, since: nat)
    requires Inv(s) && t < |s.threads| && s.threads[t] == Inserting(n, src, since)
    requires n < |s.nodes| && InTable(s.nodes[n].key) && |s.heads| == SLOTS
    ensures Inv(Insert(s, t, n, src))
  {
    HoldsAt(s, t);
    ChainedIsAllocated(s);
    InsertChains(s, t, n, src);
    var s' := Insert(s, t, n, src);
    ChainedIsAllocated(s');
    hide Chained, Sourced, Threads, Linked, Chain;
    assert s'.inserted[|s.inserted|] == n;
    OthersHold(s, s', t);
    NextDoesNotMatter(s, s');
  }

  lemma NextDoesNotMatter(s: State, s': State)
    requires Sourced(s) && s'.recorded == s.recorded && s'.sent == s.sent && |s'.nodes| == |s.nodes|
    requires forall n :: 0 <= n < |s.nodes| ==> s'.nodes[n].key == s.nodes[n].key && s'.nodes[n].src == s.nodes[n].src
    ensures Sourced(s')
  {
    hide AllKnown;
    forall n | 0 <= n < |s'.nodes|
      ensures AllKnown(s'.recorded, s'.nodes[n].key, s'.nodes[n].src)
    {
      assert AllKnown(s.recorded, s.nodes[n].key, s.nodes[n].src);
    }
  }

  lemma WriteKeepsInv(s: State, t: nat, n: nat, src: Addr, done: nat)
    requires Inv(s) && t < |s.threads| && s.threads[t] == Writing(n, src, done) && n < |s.nodes| && done < 4
    ensures Inv(WriteByte(s, t, n, src, done))
  {
    HoldsAt(s, t);
    ChainedIsAllocated(s);
    var s' := WriteByte(s, t, n, src, done);
    ByteMore(s.recorded, s.nodes[n].key, s.nodes[n].src, src, done);
    hide Chained, Threads, Linked, Chain, AllKnown;
    ChainedStill(s, s');
    OthersHold(s, s', t);
    assert Sourced(s') by {
      forall m | 0 <= m < |s'.nodes|
        ensures AllKnown(s'.recorded, s'.nodes[m].key, s'.nodes[m].src)
      {
        assert m != n ==> s'.nodes[m] == s.nodes[m];
      }
    }
  }

  lemma ByteMore(recorded: seq<Request>, key: Key, bytes: Addr, src: Addr, done: nat)
    requires AllKnown(recorded, key, bytes) && Record(key, src) in recorded && done < 4
    ensures AllKnown(recorded, key, bytes[done := src[done]])
  {
    var bytes' := bytes[done := src[done]];
    forall j | 0 <= j < |bytes'|
      ensures Known(recorded, key, j, bytes'[j])
    {
      assert Known(recorded, key, j, bytes[j]);
    }
  }

  lemma ReadKeepsInv(s: State, t: nat, n: nat, got: seq<nat>)
    requires Inv(s) && t < |s.threads| && s.threads[t] == Reading(n, got) && n < |s.nodes| && |got| < 4
    ensures Inv(ReadByte(s, t, n, got))
  {
    HoldsAt(s, t);
    ChainedIsAllocated(s);
    var s' := ReadByte(s, t, n, got);
    var key, got' := s.nodes[n].key, got + [s.nodes[n].src[|got|]];
    assert AllKnown(s.recorded, key, got') by {
      assert AllKnown(s.recorded, key, s.nodes[n].src);
    }
    hide Chained, Threads, Linked, Chain, AllKnown, Sourced;
    ChainedStill(s, s');
    OthersHold(s, s', t);
    if |got'| < 4 {
      SourcedStill(s, s');
    } else {
      var to: Addr := got';
      SentMore(s, s', Sent(key, Some(to), |s.recorded|));
    }
  }

  lemma StepKeepsInv(s: State, t: nat, r: Request)
    requires Inv(s) && Defined(s, t)
    ensures Inv(Step(s, t, r)) && |Step(s, t, r).threads| == |s.threads|
  {
    HoldsAt(s, t);
    hide Inv, Chained, Sourced, Threads, Linked, Chain;
    match s.threads[t]
    case Idle => BeginKeepsInv(s, t, r);
    case Looking(q) => LookFirstKeepsInv(s, t, q);
    case LookingAgain(key, src) => LookAgainKeepsInv(s, t, key, src);
    case Inserting(n, src, since) => InsertKeepsInv(s, t, n, src, since);
    case Writing(n, src, done) => WriteKeepsInv(s, t, n, src, done);
    case Reading(n, got) => ReadKeepsInv(s, t, n, got);
  }

  // ---------------------------------------------------------------- every run

  /** Which thread moves, and the request it starts on if it is idle. */
  datatype Move = Move(t: nat, r: Request)

  ghost predicate Legal(threads: nat, moves: seq<Move>)
  {
    forall i :: 0 <= i < |moves| ==> moves[i].t < threads
  }

  function Start(threads: nat): (s: State)
  {
    State(seq(SLOTS, _ => -1), [], seq(threads, _ => Idle), [], [], [])
  }

  lemma StartHolds(threads: nat)
    ensures Inv(Start(threads)) && |Start(threads).threads| == threads
  {
    var s := Start(threads);
    forall b | 0 <= b < SLOTS
      ensures Linked(s.nodes, s.heads[b], Chain(s.inserted, s.nodes, b))
    {
    }
  }

  /** Where the moves lead. None: a thread has looked beside the table. */
  function Run(s: State, moves: seq<Move>): (r: Option<State>)
    requires Inv(s) && Legal(|s.threads|, moves)
    ensures r.Some? ==> Inv(r.value) && |r.value.threads| == |s.threads|
    decreases |moves|
  {
    if moves == [] then Some(s)
    else if !Defined(s, moves[0].t) then None
    else
      StepKeepsInv(s, moves[0].t, moves[0].r);
      Run(Step(s, moves[0].t, moves[0].r), moves[1..])
  }

  lemma {:induction false} ChainIsDistinct(inserted: seq<nat>, nodes: seq<Node>, b: nat)
    requires Distinct(inserted) && forall i :: 0 <= i < |inserted| ==> inserted[i] < |nodes|
    ensures Distinct(Chain(inserted, nodes, b))
    decreases |inserted|
  {
    if inserted != [] {
      var older := inserted[..|inserted| - 1];
      ChainIsDistinct(older, nodes, b);
      ChainIsInserted(older, nodes, b);
    }
  }

  /** However the threads are interleaved: the chains have no cycle, a look-up finds the newest entry
      for its key if there is one, and every byte put into a reply is zero or that byte of an address
      recorded for the reply's own key. */
  lemma EveryRun(threads: nat, moves: seq<Move>, key: Key, i: nat)
    requires Legal(threads, moves) && InTable(key)
    ensures Inv(Start(threads)) && |Start(threads).threads| == threads
    ensures Run(Start(threads), moves).Some? ==>
              var s := Run(Start(threads), moves).value;
              && (forall b :: 0 <= b < SLOTS ==>
                   Linked(s.nodes, s.heads[b], Chain(s.inserted, s.nodes, b)) && Distinct(Chain(s.inserted, s.nodes, b)))
              && Lookup(s, key) == Newest(s.inserted, s.nodes, key)
              && (i < |s.sent| && s.sent[i].to.Some? ==> AllKnown(s.recorded, s.sent[i].key, s.sent[i].to.value))
  {
    StartHolds(threads);
    if Run(Start(threads), moves).None? {
      return;
    }
    var s := Run(Start(threads), moves).value;
    hide Run, Linked, Chain, Newest, AllKnown, Known;
    LookupIsNewest(s, key);
    forall b | 0 <= b < SLOTS
      ensures Linked(s.nodes, s.heads[b], Chain(s.inserted, s.nodes, b)) && Distinct(Chain(s.inserted, s.nodes, b))
    {
      ChainIsDistinct(s.inserted, s.nodes, b);
    }
  }

  // ---------------------------------------------------------------- one entry for each key

  ghost predicate OneEntry(s: State)
    requires Allocated(s)
  {
    forall i, j :: 0 <= i < j < |s.inserted| ==> s.nodes[s.inserted[i]].key != s.nodes[s.inserted[j]].key
  }

  /** What a step does to the entries. */
  lemma StepInserts(s: State, t: nat, r: Request)
    requires Inv(s) && Defined(s, t)
    ensures var s' := Step(s, t, r);
            && |s.nodes| <= |s'.nodes| && (forall n :: 0 <= n < |s.nodes| ==> s'.nodes[n].key == s.nodes[n].key)
            && s'.inserted == (if s.threads[t].Inserting? then s.inserted + [s.threads[t].node] else s.inserted)
  {
    HoldsAt(s, t);
    hide Chained, Sourced, Threads, Linked, Chain, Lookup, Newest, AllKnown;
  }

  lemma OneEntryMore(s: State, s': State, n: nat)
    requires Allocated(s) && Allocated(s') && OneEntry(s) && n < |s.nodes| <= |s'.nodes|
    requires forall m :: 0 <= m < |s.nodes| ==> s'.nodes[m].key == s.nodes[m].key
    requires s'.inserted == s.inserted + [n]
    ensures OneEntry(s') <==> Absent(s, s.nodes[n].key, |s.inserted|)
  {
    var l := |s.inserted|;
    assert s'.inserted[l] == n;
    if OneEntry(s') {
      forall i | 0 <= i < l
        ensures s.nodes[s.inserted[i]].key != s.nodes[n].key
      {
        assert s'.nodes[s'.inserted[i]].key != s'.nodes[s'.inserted[l]].key;
      }
    }
  }

  /** A step leaves one entry for each key exactly if it does not insert an entry whose key was
      inserted by another thread after this thread found it missing. */
  lemma StepKeepsOneEntry(s: State, t: nat, r: Request)
    requires Inv(s) && Defined(s, t) && OneEntry(s)
    ensures Inv(Step(s, t, r))
    ensures OneEntry(Step(s, t, r)) <==>
              match s.threads[t]
              case Inserting(n, _, since) =>
                forall i :: since <= i < |s.inserted| ==> s.nodes[s.inserted[i]].key != s.nodes[n].key
              case _ => true
  {
    StepKeepsInv(s, t, r);
    StepInserts(s, t, r);
    HoldsAt(s, t);
    hide Step, Chained, Sourced, Threads, Known, AllKnown;
    ChainedIsAllocated(s);
    ChainedIsAllocated(Step(s, t, r));
    if s.threads[t].Inserting? {
      OneEntryMore(s, Step(s, t, r), s.threads[t].node);
    }
  }

  /** A thread that looks for a key nobody has inserted goes on to insert it. */
  lemma LookingFails(s: State, t: nat, key: Key, src: Addr, r: Request)
    requires Inv(s) && Defined(s, t) && s.inserted == []
    requires s.threads[t] == Looking(Record(key, src)) || s.threads[t] == LookingAgain(key, src)
    ensures var s' := Step(s, t, r);
            && Inv(s') && s'.inserted == [] && |s.nodes| <= |s'.nodes| && s'.nodes[..|s.nodes|] == s.nodes
            && s'.threads == s.threads[t := s'.threads[t]]
            && if s.threads[t].Looking? then s'.threads[t] == LookingAgain(key, src)
               else s'.threads[t] == Inserting(|s.nodes|, src, 0) && |s'.nodes| == |s.nodes| + 1
                    && s'.nodes[|s.nodes|].key == key
  {
    StepKeepsInv(s, t, r);
    HoldsAt(s, t);
    LookupIsNewest(s, key);
    hide Chained, Sourced, Threads, Linked, Chain, Lookup, AllKnown;
  }

  /** From idle to the verge of inserting an entry for key, when there is none. */
  lemma ReachInserting(s: State, t: nat, key: Key, src: Addr)
    requires Inv(s) && t < |s.threads| && InTable(key) && s.inserted == [] && s.threads[t] == Idle
    ensures var m := Move(t, Record(key, src));
            Legal(|s.threads|, [m, m, m]) && Run(s, [m, m, m]).Some? &&
            var s' := Run(s, [m, m, m]).value;
            && s'.inserted == [] && |s'.nodes| == |s.nodes| + 1 && s'.nodes[..|s.nodes|] == s.nodes
            && s'.nodes[|s.nodes|].key == key
            && s'.threads == s.threads[t := Inserting(|s.nodes|, src, 0)]
  {
    var r := Record(key, src);
    var m := Move(t, r);
    hide Inv, Chained, Sourced, Threads, AllKnown;
    StepKeepsInv(s, t, r);
    var s1 := Begin(s, t, r);
    assert s1 == Step(s, t, r);
    LookingFails(s1, t, key, src, r);
    var s2 := Step(s1, t, r);
    LookingFails(s2, t, key, src, r);
    RunThree(s, m, m, m);
  }

  lemma RunThree(s: State, m0: Move, m1: Move, m2: Move)
    requires Inv(s) && Defined(s, m0.t)
    requires var s1 := Step(s, m0.t, m0.r);
             Inv(s1) && Defined(s1, m1.t) &&
             var s2 := Step(s1, m1.t, m1.r);
             Inv(s2) && Defined(s2, m2.t) && |s.threads| == |s1.threads| == |s2.threads|
    ensures Legal(|s.threads|, [m0, m1, m2])
    ensures var s2 := Step(Step(s, m0.t, m0.r), m1.t, m1.r);
            Run(s, [m0, m1, m2]) == Some(Step(s2, m2.t, m2.r))
  {
    hide Inv, Step, Defined;
    var s1 := Step(s, m0.t, m0.r);
    var s2 := Step(s1, m1.t, m1.r);
    StepKeepsInv(s2, m2.t, m2.r);
    DefinedIs(s, m0.t);
    DefinedIs(s1, m1.t);
    DefinedIs(s2, m2.t);
    assert [m0, m1, m2][1..] == [m1, m2] && [m1, m2][1..] == [m2] && [m2][1..] == [];
    assert Run(s2, [m2]) == Run(Step(s2, m2.t, m2.r), []);
    assert Run(s1, [m1, m2]) == Run(s2, [m2]);
  }

  lemma DefinedIs(s: State, t: nat)
    requires Defined(s, t)
    ensures t < |s.threads|
  {
  }

  lemma {:induction false} RunAppend(s: State, before: seq<Move>, behind: seq<Move>)
    requires Inv(s) && Legal(|s.threads|, before) && Legal(|s.threads|, behind)
    ensures Legal(|s.threads|, before + behind)
    ensures Run(s, before + behind)
            == match Run(s, before)
               case None => None
               case Some(s') => Run(s', behind)
    decreases |before|
  {
    hide Inv, Step, Defined;
    if before == [] {
      assert before + behind == behind;
    } else {
      var m := before[0];
      assert (before + behind)[1..] == before[1..] + behind;
      if Defined(s, m.t) {
        StepKeepsInv(s, m.t, m.r);
        RunAppend(Step(s, m.t, m.r), before[1..], behind);
      }
    }
  }

  /** Two threads that record the same new key can leave two entries for it. */
  lemma RaceLeavesTwo(key: Key, src: Addr, src': Addr)
    requires InTable(key)
    ensures Inv(Start(2)) && |Start(2).threads| == 2
    ensures exists moves ::
              Legal(2, moves) && Run(Start(2), moves).Some? && !OneEntry(Run(Start(2), moves).value)
  {
    hide Inv, Step, Run;
    StartHolds(2);
    var s := Start(2);
    var m0, m1 := Move(0, Record(key, src)), Move(1, Record(key, src'));
    ReachInserting(s, 0, key, src);
    var s3 := Run(s, [m0, m0, m0]).value;
    ReachInserting(s3, 1, key, src');
    var s6 := Run(s3, [m1, m1, m1]).value;
    RunAppend(s, [m0, m0, m0], [m1, m1, m1]);
    BothInsert(s6, key, src, src', m0, m1);
    RunAppend(s, [m0, m0, m0] + [m1, m1, m1], [m0, m1]);
  }

  lemma BothInsert(s: State, key: Key, src: Addr, src': Addr, m0: Move, m1: Move)
    requires Inv(s) && m0.t == 0 && m1.t == 1
    requires s.threads == [Inserting(0, src, 0), Inserting(1, src', 0)] && s.inserted == []
    requires |s.nodes| == 2 && s.nodes[0].key == s.nodes[1].key == key
    ensures Legal(|s.threads|, [m0, m1]) && Run(s, [m0, m1]).Some? && !OneEntry(Run(s, [m0, m1]).value)
  {
    hide Inv, Step, OneEntry;
    StepKeepsInv(s, 0, m0.r);
    var s1 := Step(s, 0, m0.r);
    StepInserts(s, 0, m0.r);
    StillInserting(s, m0.r);
    StepKeepsInv(s1, 1, m1.r);
    var s2 := Step(s1, 1, m1.r);
    StepInserts(s1, 1, m1.r);
    InvIsAllocated(s2);
    assert s2.inserted == [0, 1] && s2.nodes[0].key == s2.nodes[1].key;
    assert [m0, m1][1..] == [m1] && [m1][1..] == [];
    assert Run(s1, [m1]) == Run(s2, []);
    assert Run(s, [m0, m1]) == Some(s2);
    TwoIsNotOne(s2);
  }

  /** While thread 0 inserts, thread 1 stays where it is. */
  lemma StillInserting(s: State, r: Request)
    requires Inv(s) && |s.threads| == 2 && s.threads[0].Inserting?
    ensures |Step(s, 0, r).threads| == 2 && Step(s, 0, r).threads[1] == s.threads[1]
  {
    hide Chained, Sourced, Threads;
  }

  lemma InvIsAllocated(s: State)
    requires Inv(s)
    ensures Allocated(s)
  {
  }

  lemma TwoIsNotOne(s: State)
    requires Allocated(s) && |s.inserted| == 2 && s.nodes[s.inserted[0]].key == s.nodes[s.inserted[1]].key
    ensures !OneEntry(s)
  {
  }

  // ---------------------------------------------------------------- looking beside the table

  /** With move i an idle thread takes up a request for which the table has no slot. */
  ghost predicate TakesUp(s: State, moves: seq<Move>, i: nat)
    requires Inv(s) && Legal(|s.threads|, moves)
  {
    && i < |moves| && !InTable(moves[i].r.key)
    && Run(s, moves[..i]).Some? && Run(s, moves[..i]).value.threads[moves[i].t] == Idle
  }

  lemma RunFurther(s: State, moves: seq<Move>, i: nat)
    requires Inv(s) && Legal(|s.threads|, moves) && i < |moves|
    ensures Run(s, moves[..i + 1])
            == match Run(s, moves[..i])
               case None => None
               case Some(s') => if Defined(s', moves[i].t) then Some(Step(s', moves[i].t, moves[i].r)) else None
  {
    hide Inv, Step, Defined;
    assert moves[..i + 1] == moves[..i] + [moves[i]];
    RunAppend(s, moves[..i], [moves[i]]);
    if Run(s, moves[..i]).Some? {
      var s' := Run(s, moves[..i]).value;
      assert [moves[i]][1..] == [];
      if Defined(s', moves[i].t) {
        StepKeepsInv(s', moves[i].t, moves[i].r);
        assert Run(Step(s', moves[i].t, moves[i].r), []) == Some(Step(s', moves[i].t, moves[i].r));
      }
    }
  }

  /** A step moves no other thread, and only an idle thread comes to a first look-up. */
  lemma StepMovesOne(s: State, t: nat, r: Request, u: nat)
    requires Inv(s) && Defined(s, t) && u < |s.threads|
    ensures var s' := Step(s, t, r);
            && |s'.threads| == |s.threads|
            && (u != t ==> s'.threads[u] == s.threads[u])
            && (s'.threads[t].Looking? ==> s.threads[t] == Idle && s'.threads[t] == Looking(r))
            && (s.threads[t] == Idle ==> s'.threads[t] == Looking(r))
  {
    HoldsAt(s, t);
    hide Chained, Sourced, Threads, Linked, Chain, Lookup, AllKnown;
  }

  /** A thread about to look beside the table has taken up such a request. */
  lemma {:induction false} StrayTookUp(s: State, moves: seq<Move>, n: nat, t: nat) returns (i: nat)
    requires Inv(s) && Legal(|s.threads|, moves) && n <= |moves| && t < |s.threads|
    requires forall u :: 0 <= u < |s.threads| ==> s.threads[u] == Idle
    requires Run(s, moves[..n]).Some? && !Defined(Run(s, moves[..n]).value, t)
    ensures i < n && TakesUp(s, moves, i) && moves[i].t == t
  {
    hide Inv, Step;
    i := 0;
    if n > 0 {
      RunFurther(s, moves, n - 1);
      var s', m := Run(s, moves[..n - 1]).value, moves[n - 1];
      StepMovesOne(s', m.t, m.r, t);
      if m.t == t {
        i := n - 1;
      } else {
        i := StrayTookUp(s, moves, n - 1, t);
      }
    }
  }

  /** A thread that has taken one up looks beside the table with its next step. */
  lemma {:induction false} TakenUpStays(s: State, moves: seq<Move>, i: nat, n: nat)
    requires Inv(s) && Legal(|s.threads|, moves) && TakesUp(s, moves, i) && i < n <= |moves|
    ensures match Run(s, moves[..n])
            case None => true
            case Some(s') =>
              && s'.threads[moves[i].t] == Looking(moves[i].r)
              && forall j :: i < j < n ==> moves[j].t != moves[i].t
  {
    hide Inv, Step;
    RunFurther(s, moves, n - 1);
    if Run(s, moves[..n]).Some? {
      var s', m := Run(s, moves[..n - 1]).value, moves[n - 1];
      if n > i + 1 {
        TakenUpStays(s, moves, i, n - 1);
      }
      StepMovesOne(s', m.t, m.r, moves[i].t);
    }
  }

  lemma {:induction false} RunStops(s: State, moves: seq<Move>, n: nat) returns (j: nat)
    requires Inv(s) && Legal(|s.threads|, moves) && n <= |moves| && Run(s, moves[..n]).None?
    ensures j < n && Run(s, moves[..j]).Some? && !Defined(Run(s, moves[..j]).value, moves[j].t)
  {
    hide Inv, Step;
    j := 0;
    if n > 0 {
      RunFurther(s, moves, n - 1);
      if Run(s, moves[..n - 1]).None? {
        j := RunStops(s, moves, n - 1);
      } else {
        j := n - 1;
      }
    }
  }

  /** A run looks beside the table if and only if some idle thread takes up a request whose
      destination ends in 255 and makes another step. */
  lemma BesideTheTable(threads: nat, moves: seq<Move>)
    requires Legal(threads, moves)
    ensures Inv(Start(threads)) && |Start(threads).threads| == threads
    ensures Run(Start(threads), moves) == None
            <==> exists i, j :: 0 <= i < j < |moves| && TakesUp(Start(threads), moves, i) && moves[j].t == moves[i].t
  {
    hide Inv, Run, Step, Defined;
    StartHolds(threads);
    var s := Start(threads);
    assert moves[..|moves|] == moves;
    if Run(s, moves).None? {
      var j := RunStops(s, moves, |moves|);
      var i := StrayTookUp(s, moves, j, moves[j].t);
      assert i < j && TakesUp(s, moves, i) && moves[j].t == moves[i].t;
    }
    if i, j :| 0 <= i < j < |moves| && TakesUp(s, moves, i) && moves[j].t == moves[i].t {
      TakenUpStays(s, moves, i, |moves|);
    }
  }

  /** One packet to such a destination is enough. */
  lemma BesideTheTableAt(srcPort: nat, src: Addr, dstPort: nat)
    ensures Inv(Start(1)) && |Start(1).threads| == 1
    ensures var m := Move(0, Outgoing(srcPort, src, [192, 0, 2, 255], dstPort));
            Legal(1, [m, m]) && Run(Start(1), [m, m]) == None
  {
    hide Inv, Step;
    StartHolds(1);
    var m := Move(0, Outgoing(srcPort, src, [192, 0, 2, 255], dstPort));
    assert [m, m][..0] == [];
    assert TakesUp(Start(1), [m, m], 0);
    assert [m, m][1].t == [m, m][0].t;
    BesideTheTable(1, [m, m]);
  }
}
