/** The address translation table when no request is begun before the one before it is finished: one
    entry for each key, and every reply goes to the source recorded last. */
module NatInOrder {
  import opened Common
  import opened Nat

  /** The source recorded last for key. */
  function Latest(recorded: seq<Request>, key: Key): (src: Option<Addr>)
  {
    if recorded == [] then None
    else
      var last := recorded[|recorded| - 1];
      if last.Record? && last.key == key then Some(last.src) else Latest(recorded[..|recorded| - 1], key)
  }

  /** The table says about key what was recorded about it. */
  ghost predicate Settled(s: State, key: Key)
    requires Allocated(s)
  {
    var n := Newest(s.inserted, s.nodes, key);
    match Latest(s.recorded, key)
    case None => n == -1
    case Some(src) => n != -1 && s.nodes[n].src == src
  }

  /** Every key but one is settled. */
  ghost predicate AllSettledBut(s: State, but: Option<Key>)
    requires Allocated(s)
  {
    forall key :: but == Some(key) || Settled(s, key)
  }

  /** How far the only busy thread has got. */
  ghost predicate Phase(s: State, pc: Pc)
    requires Allocated(s) && Holds(s, pc)
  {
    match pc
    case Idle => AllSettledBut(s, None)
    case Looking(r) =>
      if r.Record? then Recording(s, r.key, r.src) else AllSettledBut(s, None)
    case LookingAgain(key, src) => Recording(s, key, src)
    case Inserting(n, src, since) => Recording(s, s.nodes[n].key, src) && since == |s.inserted|
    case Writing(n, src, done) =>
      var key := s.nodes[n].key;
      Recording(s, key, src) && Newest(s.inserted, s.nodes, key) == n && s.nodes[n].src[..done] == src[..done]
    case Reading(n, got) =>
      && AllSettledBut(s, None) && Newest(s.inserted, s.nodes, s.nodes[n].key) == n
      && got == s.nodes[n].src[..|got|]
  }

  ghost predicate Recording(s: State, key: Key, src: Addr)
    requires Allocated(s)
  {
    Latest(s.recorded, key) == Some(src) && AllSettledBut(s, Some(key))
  }

  /** Each reply went to the source recorded last for its key before it left, and was left alone if
      there was none. */
  ghost predicate Answered(s: State)
  {
    forall i :: 0 <= i < |s.sent| ==>
      s.sent[i].at <= |s.recorded| && s.sent[i].to == Latest(s.recorded[..s.sent[i].at], s.sent[i].key)
  }

  ghost predicate OthersIdle(s: State, t: nat)
  {
    t < |s.threads| && forall u :: 0 <= u < |s.threads| && u != t ==> s.threads[u] == Idle
  }

  ghost predicate InOrder(s: State, t: nat)
  {
    && Inv(s) && OthersIdle(s, t) && OneEntry(s) && Answered(s)
    && Holds(s, s.threads[t]) && Phase(s, s.threads[t])
  }

  // ---------------------------------------------------------------- frames

  lemma LatestMore(recorded: seq<Request>, r: Request, key: Key)
    ensures Latest(recorded + [r], key) == if r.Record? && r.key == key then Some(r.src) else Latest(recorded, key)
  {
    assert (recorded + [r])[..|recorded|] == recorded;
  }

  lemma NewestMore(inserted: seq<nat>, nodes: seq<Node>, n: nat, key: Key)
    requires n < |nodes| && forall i :: 0 <= i < |inserted| ==> inserted[i] < |nodes|
    ensures Newest(inserted + [n], nodes, key) == if nodes[n].key == key then n else Newest(inserted, nodes, key)
  {
    assert (inserted + [n])[..|inserted|] == inserted;
  }

  lemma AnsweredMore(s: State, s': State, e: Sent)
    requires Answered(s) && s'.recorded == s.recorded && s'.sent == s.sent + [e]
    requires e.at == |s.recorded| && e.to == Latest(s.recorded, e.key)
    ensures Answered(s')
  {
    hide Latest;
    assert s.recorded[..|s.recorded|] == s.recorded;
  }

  lemma AnsweredStill(s: State, s': State)
    requires Answered(s) && s.recorded <= s'.recorded && s'.sent == s.sent
    ensures Answered(s')
  {
    hide Latest;
    forall i | 0 <= i < |s.sent|
      ensures s'.sent[i].at <= |s'.recorded| && s'.sent[i].to == Latest(s'.recorded[..s'.sent[i].at], s'.sent[i].key)
    {
      assert s'.recorded[..s.sent[i].at] == s.recorded[..s.sent[i].at];
    }
  }

  /** Entries for other keys are not touched: the newest entry for key stays and keeps its source. */
  ghost predicate Untouched(s: State, s': State, key: Key)
    requires Allocated(s) && Allocated(s')
  {
    var n := Newest(s.inserted, s.nodes, key);
    && Latest(s'.recorded, key) == Latest(s.recorded, key)
    && Newest(s'.inserted, s'.nodes, key) == n
    && (n != -1 ==> s'.nodes[n].src == s.nodes[n].src)
  }

  lemma SettledStill(s: State, s': State, but: Option<Key>, but': Option<Key>)
    requires Allocated(s) && Allocated(s') && AllSettledBut(s, but)
    requires forall key :: but' != Some(key) ==> but != Some(key) && Untouched(s, s', key)
    ensures AllSettledBut(s', but')
  {
    hide Latest, Newest;
    forall key | but' != Some(key)
      ensures Settled(s', key)
    {
      assert Untouched(s, s', key);
      assert Settled(s, key);
    }
  }

  lemma UntouchedNodes(s: State, s': State, key: Key)
    requires Allocated(s) && Allocated(s') && s'.recorded == s.recorded && s'.inserted == s.inserted
    requires |s.nodes| <= |s'.nodes| && forall n :: 0 <= n < |s.nodes| ==> s'.nodes[n].key == s.nodes[n].key
    requires forall n :: 0 <= n < |s.nodes| && s.nodes[n].key == key ==> s'.nodes[n].src == s.nodes[n].src
    ensures Untouched(s, s', key)
  {
    NewestElsewhere(s.inserted, s.nodes, s'.nodes, key);
  }

  // ---------------------------------------------------------------- the steps

  lemma BeginInOrder(s: State, t: nat, r: Request)
    requires InOrder(s, t) && s.threads[t] == Idle
    ensures InOrder(Begin(s, t, r), t)
  {
    var s' := Begin(s, t, r);
    BeginKeepsInv(s, t, r);
    HoldsAt(s', t);
    AnsweredStill(s, s');
    hide Inv, Answered, Latest, Newest;
    forall key | !r.Record? || r.key != key
      ensures Untouched(s, s', key)
    {
      LatestMore(s.recorded, r, key);
    }
    if r.Record? {
      LatestMore(s.recorded, r, r.key);
      SettledStill(s, s', None, Some(r.key));
    } else {
      SettledStill(s, s', None, None);
    }
  }

  lemma OneEntryStill(s: State, s': State)
    requires Allocated(s) && Allocated(s') && OneEntry(s) && s'.inserted == s.inserted && |s'.nodes| >= |s.nodes|
    requires forall n :: 0 <= n < |s.nodes| ==> s'.nodes[n].key == s.nodes[n].key
    ensures OneEntry(s')
  {
  }

  lemma NewestHasKey(s: State, key: Key)
    requires Allocated(s)
    ensures var n := Newest(s.inserted, s.nodes, key);
            n != -1 ==> 0 <= n < |s.nodes| && s.nodes[n].key == key
  {
  }

  lemma NewestIs(s: State, s': State, key: Key)
    requires Allocated(s) && Allocated(s') && s'.inserted == s.inserted && |s'.nodes| == |s.nodes|
    requires forall n :: 0 <= n < |s.nodes| ==> s'.nodes[n].key == s.nodes[n].key
    ensures Newest(s'.inserted, s'.nodes, key) == Newest(s.inserted, s.nodes, key)
  {
    NewestElsewhere(s.inserted, s.nodes, s'.nodes, key);
  }

  lemma InsertIsStep(s: State, t: nat, n: nat, src: Addr, since: nat)
    requires Inv(s) && t < |s.threads| && s.threads[t] == Inserting(n, src, since)
    requires n < |s.nodes| && InTable(s.nodes[n].key) && |s.heads| == SLOTS
    ensures Step(s, t, Reply(s.nodes[n].key)) == Insert(s, t, n, src)
  {
    hide Chained, Threads, Sourced;
  }

  lemma InsertUntouched(s: State, t: nat, n: nat, src: Addr, key: Key)
    requires Allocated(s) && t < |s.threads| && n < |s.nodes| && key != s.nodes[n].key
    requires Allocated(Insert(s, t, n, src))
    ensures Untouched(s, Insert(s, t, n, src), key)
  {
    hide Newest, Latest;
    var s' := Insert(s, t, n, src);
    NewestElsewhere(s.inserted, s.nodes, s'.nodes, key);
    NewestMore(s.inserted, s'.nodes, n, key);
  }

  lemma InsertIsNewest(s: State, t: nat, n: nat, src: Addr)
    requires Allocated(s) && t < |s.threads| && n < |s.nodes| && Allocated(Insert(s, t, n, src))
    ensures var s' := Insert(s, t, n, src); Newest(s'.inserted, s'.nodes, s.nodes[n].key) == n
  {
    hide Newest;
    NewestMore(s.inserted, Insert(s, t, n, src).nodes, n, s.nodes[n].key);
  }

  lemma LookFirstInOrder(s: State, t: nat, r: Request)
    requires InOrder(s, t) && s.threads[t] == Looking(r) && InTable(r.key) && Chained(s)
    ensures InOrder(LookFirst(s, t, r), t)
  {
    hide Inv, Answered, Latest, Newest, Lookup, Chained, Holds, OneEntry, Allocated;
    var s' := LookFirst(s, t, r);
    InvIsAllocated(s);
    LookFirstKeepsInv(s, t, r);
    InvIsAllocated(s');
    HoldsAt(s', t);
    LookupIsNewest(s, r.key);
    NewestHasKey(s, r.key);
    OneEntryStill(s, s');
    assert forall key :: Settled(s', key) == Settled(s, key);
    if s'.sent == s.sent {
      AnsweredStill(s, s');
    } else {
      assert Settled(s, r.key);
      AnsweredMore(s, s', Sent(r.key, None, |s.recorded|));
    }
  }

  lemma LookAgainInOrder(s: State, t: nat, key: Key, src: Addr)
    requires InOrder(s, t) && s.threads[t] == LookingAgain(key, src) && InTable(key) && Chained(s)
    ensures InOrder(LookAgain(s, t, key, src), t)
  {
    var s' := LookAgain(s, t, key, src);
    LookAgainKeepsInv(s, t, key, src);
    HoldsAt(s', t);
    LookupIsNewest(s, key);
    AnsweredStill(s, s');
    hide Inv, Answered, Latest, Newest, Lookup, Chained, Holds;
    ChainedIsAllocated(s);
    forall k
      ensures Untouched(s, s', k)
    {
      UntouchedNodes(s, s', k);
    }
    SettledStill(s, s', Some(key), Some(key));
  }

  lemma InsertInOrder(s: State, t: nat, n: nat, src: Addr, since: nat)
    requires InOrder(s, t) && s.threads[t] == Inserting(n, src, since)
    requires n < |s.nodes| && InTable(s.nodes[n].key) && |s.heads| == SLOTS
    ensures InOrder(Insert(s, t, n, src), t)
  {
    hide Inv, Answered, Latest, Newest, Chained, Holds, OneEntry, Allocated;
    var s', key := Insert(s, t, n, src), s.nodes[n].key;
    InvIsAllocated(s);
    InsertKeepsInv(s, t, n, src, since);
    InvIsAllocated(s');
    InsertIsStep(s, t, n, src, since);
    StepKeepsOneEntry(s, t, Reply(key));
    HoldsAt(s', t);
    AnsweredStill(s, s');
    forall k | k != key
      ensures Untouched(s, s', k)
    {
      InsertUntouched(s, t, n, src, k);
    }
    SettledStill(s, s', Some(key), Some(key));
    InsertIsNewest(s, t, n, src);
  }

  lemma WriteInOrder(s: State, t: nat, n: nat, src: Addr, done: nat)
    requires InOrder(s, t) && s.threads[t] == Writing(n, src, done) && n < |s.nodes| && done < 4
    ensures InOrder(WriteByte(s, t, n, src, done), t)
  {
    hide Inv, Answered, Latest, Newest, Chained, Holds, OneEntry, Allocated;
    var s', key := WriteByte(s, t, n, src, done), s.nodes[n].key;
    InvIsAllocated(s);
    WriteKeepsInv(s, t, n, src, done);
    InvIsAllocated(s');
    HoldsAt(s', t);
    AnsweredStill(s, s');
    OneEntryStill(s, s');
    forall k | k != key
      ensures Untouched(s, s', k)
    {
      UntouchedNodes(s, s', k);
    }
    SettledStill(s, s', Some(key), Some(key));
    NewestIs(s, s', key);
    assert s'.nodes[n].src[..done + 1] == src[..done + 1] by {
      assert src[..done + 1] == src[..done] + [src[done]];
    }
    if done == 3 {
      assert s'.nodes[n].src == src;
      assert Settled(s', key);
    }
  }

  lemma ReadInOrder(s: State, t: nat, n: nat, got: seq<nat>)
    requires InOrder(s, t) && s.threads[t] == Reading(n, got) && n < |s.nodes| && |got| < 4
    ensures InOrder(ReadByte(s, t, n, got), t)
  {
    var s', key := ReadByte(s, t, n, got), s.nodes[n].key;
    ReadKeepsInv(s, t, n, got);
    HoldsAt(s', t);
    hide Inv, Answered, Latest, Newest, Chained, Holds;
    assert forall k :: Settled(s', k) == Settled(s, k);
    var got' := got + [s.nodes[n].src[|got|]];
    assert got' == s.nodes[n].src[..|got'|];
    if |got'| < 4 {
      AnsweredStill(s, s');
    } else {
      assert got' == s.nodes[n].src;
      assert Settled(s, key);
      var to: Addr := got';
      AnsweredMore(s, s', Sent(key, Some(to), |s.recorded|));
    }
  }

  lemma StepInOrder(s: State, t: nat, r: Request)
    requires InOrder(s, t) && Defined(s, t)
    ensures InOrder(Step(s, t, r), t)
  {
    HoldsAt(s, t);
    hide InOrder, Chained, Sourced, Threads, Linked, Chain;
    match s.threads[t]
    case Idle => BeginInOrder(s, t, r);
    case Looking(q) => LookFirstInOrder(s, t, q);
    case LookingAgain(key, src) => LookAgainInOrder(s, t, key, src);
    case Inserting(n, src, since) => InsertInOrder(s, t, n, src, since);
    case Writing(n, src, done) => WriteInOrder(s, t, n, src, done);
    case Reading(n, got) => ReadInOrder(s, t, n, got);
  }

  // ---------------------------------------------------------------- runs

  /** A thread moves only while the others are idle. */
  ghost predicate OneAtATime(s: State, moves: seq<Move>)
    requires Inv(s) && Legal(|s.threads|, moves)
    decreases |moves|
  {
    moves == [] ||
    (&& OthersIdle(s, moves[0].t)
     && (Defined(s, moves[0].t) ==>
           (StepKeepsInv(s, moves[0].t, moves[0].r);
            OneAtATime(Step(s, moves[0].t, moves[0].r), moves[1..]))))
  }

  lemma {:induction false} RunInOrder(s: State, t: nat, moves: seq<Move>)
    requires InOrder(s, t) && Legal(|s.threads|, moves) && OneAtATime(s, moves)
    ensures Run(s, moves).Some? ==> OneEntry(Run(s, moves).value) && Answered(Run(s, moves).value)
    decreases |moves|
  {
    if moves != [] {
      var u, r := moves[0].t, moves[0].r;
      if Defined(s, u) {
        StepKeepsInv(s, u, r);
        assert InOrder(s, u);
        StepInOrder(s, u, r);
        RunInOrder(Step(s, u, r), u, moves[1..]);
      }
    }
  }

  /** From an empty table, requests handled one at a time: there is never more than one entry for a
      key, and every reply goes to the source recorded last for its key. */
  lemma RepliesGoToLatest(threads: nat, moves: seq<Move>)
    requires threads > 0 && Legal(threads, moves)
    ensures Inv(Start(threads)) && |Start(threads).threads| == threads
    ensures OneAtATime(Start(threads), moves) && Run(Start(threads), moves).Some? ==>
              OneEntry(Run(Start(threads), moves).value) && Answered(Run(Start(threads), moves).value)
  {
    StartHolds(threads);
    var s := Start(threads);
    if OneAtATime(s, moves) {
      forall key
        ensures Settled(s, key)
      {
      }
      RunInOrder(s, 0, moves);
    }
  }

  // ---------------------------------------------------------------- the replies to a flow

  /** Of the first n requests only the j-th may have key. */
  ghost predicate OnlyOne(recorded: seq<Request>, n: nat, j: nat, key: Key)
    requires n <= |recorded|
  {
    forall i :: 0 <= i < n && i != j ==> recorded[i].key != key
  }

  lemma {:induction false} LatestOfOne(recorded: seq<Request>, j: nat, key: Key)
    requires j < |recorded| && OnlyOne(recorded, |recorded|, j, key)
    ensures Latest(recorded, key)
            == if recorded[j].Record? && recorded[j].key == key then Some(recorded[j].src) else None
  {
    var n := |recorded| - 1;
    if j < n {
      LatestOfOne(recorded[..n], j, key);
    } else {
      LatestOfNone(recorded[..n], key);
    }
  }

  lemma {:induction false} LatestOfNone(recorded: seq<Request>, key: Key)
    requires forall i :: 0 <= i < |recorded| ==> recorded[i].key != key
    ensures Latest(recorded, key) == None
  {
    if recorded != [] {
      LatestOfNone(recorded[..|recorded| - 1], key);
    }
  }

  /** Requests handled one at a time: the replies to a flow that an outgoing packet recorded go to its
      source. The replies to a flow that the controller announced go to its source if and only if the
      two ports of the flow are equal, and are left alone otherwise. In both cases no other request
      recorded by then has the key of the reply. */
  lemma RepliesToFlow(threads: nat, moves: seq<Move>, i: nat, j: nat, src: Addr, srcPort: nat, dst: Addr, dstPort: nat)
    requires threads > 0 && Legal(threads, moves)
    ensures Inv(Start(threads)) && |Start(threads).threads| == threads
    ensures OneAtATime(Start(threads), moves) && Run(Start(threads), moves).Some? ==>
              var s, key := Run(Start(threads), moves).value, Key(srcPort, dst, dstPort);
              i < |s.sent| && s.sent[i].key == key && j < s.sent[i].at ==>
                && s.sent[i].at <= |s.recorded|
                && (OnlyOne(s.recorded, s.sent[i].at, j, key) ==>
                      && (s.recorded[j] == Outgoing(srcPort, src, dst, dstPort) ==> s.sent[i].to == Some(src))
                      && (s.recorded[j] == NatAdd(src, dst, srcPort, dstPort) ==>
                            s.sent[i].to == if srcPort == dstPort then Some(src) else None))
  {
    hide OneAtATime, Run, Inv, OneEntry, Latest;
    RepliesGoToLatest(threads, moves);
    if OneAtATime(Start(threads), moves) && Run(Start(threads), moves).Some? {
      var s, key := Run(Start(threads), moves).value, Key(srcPort, dst, dstPort);
      if i < |s.sent| && s.sent[i].key == key && j < s.sent[i].at && OnlyOne(s.recorded, s.sent[i].at, j, key) {
        LatestOfOne(s.recorded[..s.sent[i].at], j, key);
      }
    }
  }

  /** A reply goes to a source only if it comes from where that source sent to: the address and the port
      of the other end, and the port of the source, are those of a recorded packet. */
  lemma RepliesComeFromFlows(threads: nat, moves: seq<Move>, i: nat, src: Addr, srcPort: nat, dst: Addr, dstPort: nat)
    requires threads > 0 && Legal(threads, moves)
    ensures Inv(Start(threads)) && |Start(threads).threads| == threads
    ensures OneAtATime(Start(threads), moves) && Run(Start(threads), moves).Some? ==>
              var s := Run(Start(threads), moves).value;
              i < |s.sent| && s.sent[i].key == Incoming(dstPort, dst, srcPort).key && s.sent[i].to == Some(src) ==>
                exists j :: 0 <= j < s.sent[i].at <= |s.recorded| && s.recorded[j] == Outgoing(srcPort, src, dst, dstPort)
                            && forall k :: j < k < s.sent[i].at && s.recorded[k].Record? ==> s.recorded[k].key != s.recorded[j].key
  {
    hide OneAtATime, Run, Inv, OneEntry, Latest;
    RepliesGoToLatest(threads, moves);
    if OneAtATime(Start(threads), moves) && Run(Start(threads), moves).Some? {
      var s := Run(Start(threads), moves).value;
      if i < |s.sent| && s.sent[i].key == Incoming(dstPort, dst, srcPort).key && s.sent[i].to == Some(src) {
        assert s.sent[i].to == Latest(s.recorded[..s.sent[i].at], s.sent[i].key);
        var j := LatestAt(s.recorded[..s.sent[i].at], s.sent[i].key);
      }
    }
  }

  lemma {:induction false} LatestAt(recorded: seq<Request>, key: Key) returns (j: nat)
    requires Latest(recorded, key).Some?
    ensures j < |recorded| && recorded[j] == Record(key, Latest(recorded, key).value)
    ensures forall k :: j < k < |recorded| && recorded[k].Record? ==> recorded[k].key != key
  {
    var n := |recorded| - 1;
    if recorded[n].Record? && recorded[n].key == key {
      j := n;
    } else {
      j := LatestAt(recorded[..n], key);
    }
  }

  /** The moves, one request at a time, lead from s to s'. */
  ghost predicate Leads(s: State, moves: seq<Move>, s': State)
  {
    Inv(s) && Legal(|s.threads|, moves) && OneAtATime(s, moves) && Run(s, moves) == Some(s')
  }

  lemma LeadsFirst(s: State, t: nat, r: Request, moves: seq<Move>, s': State)
    requires InOrder(s, t) && Defined(s, t) && Leads(Step(s, t, r), moves, s')
    ensures Leads(s, [Move(t, r)] + moves, s')
  {
    hide InOrder, Step, Inv;
    InOrderIs(s, t);
    StepKeepsInv(s, t, r);
    var all := [Move(t, r)] + moves;
    assert all[0] == Move(t, r) && all[1..] == moves;
  }

  lemma InOrderIs(s: State, t: nat)
    requires InOrder(s, t)
    ensures Inv(s) && OthersIdle(s, t)
  {
  }

  /** Reading an entry to the end sends what it holds. */
  lemma {:induction false} ReadsToTheEnd(s: State, t: nat, n: nat, got: seq<nat>) returns (moves: seq<Move>, s': State)
    requires InOrder(s, t) && s.threads[t] == Reading(n, got) && n < |s.nodes| && |got| < 4
    ensures Leads(s, moves, s') && s'.recorded == s.recorded && t < |s'.threads| && s'.threads[t] == Idle
    ensures s'.sent == s.sent + [Sent(s.nodes[n].key, Latest(s.recorded, s.nodes[n].key), |s.recorded|)]
    decreases 4 - |got|
  {
    hide InOrder, Leads, Latest;
    var key := s.nodes[n].key;
    var r := Reply(key);
    InOrderIs(s, t);
    ReadingIs(s, t, n, got);
    StepInOrder(s, t, r);
    var s1, got' := Step(s, t, r), got + [s.nodes[n].src[|got|]];
    if |got'| < 4 {
      moves, s' := ReadsToTheEnd(s1, t, n, got');
    } else {
      moves, s' := [], s1;
      NoMoves(s1, t);
      assert got' == s.nodes[n].src;
    }
    LeadsFirst(s, t, r, moves, s');
    moves := [Move(t, r)] + moves;
  }

  lemma NoMoves(s: State, t: nat)
    requires InOrder(s, t)
    ensures Leads(s, [], s)
  {
  }

  lemma ReadingIs(s: State, t: nat, n: nat, got: seq<nat>)
    requires InOrder(s, t) && s.threads[t] == Reading(n, got) && n < |s.nodes| && |got| < 4
    ensures Inv(s) && InTable(s.nodes[n].key) && got == s.nodes[n].src[..|got|]
    ensures Latest(s.recorded, s.nodes[n].key) == Some(s.nodes[n].src)
    ensures Step(s, t, Reply(s.nodes[n].key)) == ReadByte(s, t, n, got)
  {
    hide Latest, Newest, Answered;
    assert Settled(s, s.nodes[n].key);
  }

  /** A reply handled alone always gets to leave, for the source recorded last for its key. */
  lemma ReplyIsSent(s: State, t: nat, key: Key) returns (moves: seq<Move>, s': State)
    requires InOrder(s, t) && s.threads[t] == Idle && InTable(key)
    ensures Leads(s, moves, s') && s'.recorded == s.recorded && t < |s'.threads| && s'.threads[t] == Idle
    ensures s'.sent == s.sent + [Sent(key, Latest(s.recorded, key), |s.recorded|)]
  {
    hide InOrder, Leads, Latest;
    var r := Reply(key);
    InOrderIs(s, t);
    StepInOrder(s, t, r);
    var s1 := Step(s, t, r);
    assert s1 == At(s, t, Looking(r));
    StepInOrder(s1, t, r);
    InOrderIs(s1, t);
    var s2 := Step(s1, t, r);
    LookingIs(s1, t, key);
    if s2.threads[t] == Idle {
      moves, s' := [], s2;
      NoMoves(s2, t);
    } else {
      moves, s' := ReadsToTheEnd(s2, t, s2.threads[t].node, []);
    }
    LeadsFirst(s1, t, r, moves, s');
    LeadsFirst(s, t, r, [Move(t, r)] + moves, s');
    moves := [Move(t, r)] + ([Move(t, r)] + moves);
  }

  lemma LookingIs(s: State, t: nat, key: Key)
    requires InOrder(s, t) && s.threads[t] == Looking(Reply(key)) && InTable(key)
    ensures var s' := Step(s, t, Reply(key));
            && s'.recorded == s.recorded && |s'.threads| == |s.threads|
            && match s'.threads[t]
               case Idle => s'.sent == s.sent + [Sent(key, Latest(s.recorded, key), |s.recorded|)]
               case Reading(n, got) => got == [] && n < |s'.nodes| && s'.nodes[n].key == key && s'.sent == s.sent
               case _ => false
  {
    hide Latest, Newest, Answered;
    LookupIsNewest(s, key);
    assert Settled(s, key);
  }
}
