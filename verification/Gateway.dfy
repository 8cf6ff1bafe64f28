/** The chained table of the gateway in place, and what it does to the packets: one request at a
    time, over entries that are linked and overwritten. */
module Gateway {
  import opened Nat

  class NatMap {
    const key: Key
    var src: Addr
    var next: NatMap?

    constructor (key: Key)
      ensures this.key == key && next == null && src == [0, 0, 0, 0]
    {
      this.key := key;
      src, next := [0, 0, 0, 0], null;
    }
  }

  datatype Packet = Packet(src: Addr, srcPort: nat, dst: Addr, dstPort: nat)

  class NatTable {
    const table: array<NatMap?>
    ghost var chains: seq<seq<NatMap>>
    ghost var entries: map<Key, NatMap>
    ghost var nodes: set<NatMap>

    /** Bucket b: the next fields lead through chains[b]. */
    ghost predicate Chain(b: nat)
      requires b < table.Length && b < |chains|
      reads this, table, nodes
    {
      var c := chains[b];
      && (forall i :: 0 <= i < |c| ==> c[i] in nodes && Bucket(c[i].key) == b)
      && (forall i {:trigger c[i]} :: 0 <= i < |c| ==> c[i] in nodes && c[i].next == if i + 1 < |c| then c[i + 1] else null)
      && table[b] == (if c == [] then null else c[0])
    }

    ghost predicate Chains()
      reads this, table, nodes
    {
      table.Length == SLOTS == |chains| && forall b :: 0 <= b < SLOTS ==> Chain(b)
    }

    /** There is one entry for each key, in the chain of its bucket, and no other. */
    ghost predicate Entries()
      reads this, nodes
    {
      && |chains| == SLOTS
      && (forall key :: key in entries ==>
           InTable(key) && entries[key] in nodes && entries[key].key == key && entries[key] in chains[Bucket(key)])
      && (forall b, i :: 0 <= b < SLOTS && 0 <= i < |chains[b]| ==>
           chains[b][i].key in entries && entries[chains[b][i].key] == chains[b][i])
    }

    ghost predicate Valid()
      reads this, table, nodes
    {
      Chains() && Entries()
    }

    /** What the table records. */
    ghost function Sources(): (m: map<Key, Addr>)
      reads this, nodes
      requires Entries()
    {
      map key | key in entries :: entries[key].src
    }

    constructor ()
      ensures Valid() && Sources() == map[] && fresh(table)
    {
      table := new NatMap?[SLOTS](_ => null);
      chains := seq(SLOTS, _ => []);
      entries, nodes := map[], {};
    }

    lemma Head(b: nat)
      requires b < table.Length && b < |chains| && Chain(b)
      ensures table[b] == if chains[b] == [] then null else chains[b][0]
    {
    }

    lemma Follow(b: nat, i: nat)
      requires b < table.Length && b < |chains| && Chain(b) && i < |chains[b]|
      ensures chains[b][i].next == if i + 1 < |chains[b]| then chains[b][i + 1] else null
    {
    }

    lemma IsEntry(b: nat, i: nat)
      requires Entries() && b < SLOTS && i < |chains[b]|
      ensures chains[b][i].key in entries && entries[chains[b][i].key] == chains[b][i]
    {
    }

    lemma NoEntry(key: Key)
      requires Entries() && InTable(key)
      requires forall i :: 0 <= i < |chains[Bucket(key)]| ==> chains[Bucket(key)][i].key != key
      ensures key !in entries
    {
    }

    /** beside: the slot it looks in is not one of the table's. */
    method LookupNatMap(key: Key) returns (beside: bool, n: NatMap?)
      requires Valid()
      ensures beside <==> !InTable(key)
      ensures n == if key in entries then entries[key] else null
    {
      hide Chain, Entries;
      var b := Bucket(key);
      beside, n := b >= table.Length, null;
      if beside {
        NotInTable(key);
        return;
      }
      ghost var i := 0;
      Head(b);
      n := table[b];
      while n != null && n.key != key
        invariant i <= |chains[b]| && n == if i < |chains[b]| then chains[b][i] else null
        invariant forall j :: 0 <= j < i ==> chains[b][j].key != key
        decreases |chains[b]| - i
      {
        Follow(b, i);
        n := n.next;
        i := i + 1;
      }
      if n != null {
        IsEntry(b, i);
      } else {
        NoEntry(key);
      }
    }

    /** Another bucket is not disturbed by what happens outside its chain. */
    twostate lemma OtherChain(b: nat)
      requires b < table.Length == SLOTS && b < |old(chains)| == |chains| && old(Chain(b))
      requires chains[b] == old(chains[b]) && table[b] == old(table[b]) && old(nodes) <= nodes
      requires forall m :: m in old(nodes) ==> m.next == old(m.next)
      ensures Chain(b)
    {
      var c := chains[b];
      forall i | 0 <= i < |c|
        ensures c[i] in nodes && c[i].next == if i + 1 < |c| then c[i + 1] else null
      {
        assert c[i] in old(nodes) && old(c[i].next) == if i + 1 < |c| then c[i + 1] else null;
      }
    }

    twostate lemma FirstInChain(b: nat, new n: NatMap)
      requires b < table.Length == SLOTS && b < |old(chains)| == |chains| && old(Chain(b))
      requires chains[b] == [n] + old(chains[b]) && table[b] == n && old(nodes) <= nodes && n in nodes
      requires Bucket(n.key) == b && n.next == old(table[b])
      requires forall m :: m in old(nodes) ==> m.next == old(m.next)
      ensures Chain(b)
    {
      var c, was := chains[b], old(chains[b]);
      forall i | 0 <= i < |c|
        ensures c[i] in nodes && Bucket(c[i].key) == b && c[i].next == if i + 1 < |c| then c[i + 1] else null
      {
        if i > 0 {
          assert c[i] == was[i - 1] && was[i - 1] in old(nodes);
          assert old(was[i - 1].next) == if i < |was| then was[i] else null;
        }
      }
    }

    twostate lemma OneMoreEntry(new n: NatMap)
      requires old(Entries()) && InTable(n.key) && n.key !in old(entries)
      requires nodes == old(nodes) + {n} && entries == old(entries)[n.key := n]
      requires var b := Bucket(n.key); chains == old(chains)[b := [n] + old(chains[b])]
      ensures Entries()
    {
      var b0 := Bucket(n.key);
      forall b, i | 0 <= b < SLOTS && 0 <= i < |chains[b]|
        ensures chains[b][i].key in entries && entries[chains[b][i].key] == chains[b][i]
      {
        if b == b0 {
          assert i > 0 ==> chains[b][i] == old(chains[b])[i - 1];
        } else {
          assert chains[b][i] == old(chains[b])[i];
        }
      }
      forall key | key in entries
        ensures InTable(key) && entries[key] in nodes && entries[key].key == key && entries[key] in chains[Bucket(key)]
      {
        if key == n.key {
          assert chains[b0][0] == n;
        }
      }
    }

    /** Put n at the head of its chain. */
    method Link(n: NatMap)
      requires Valid() && InTable(n.key) && n !in nodes && n.key !in entries
      modifies this, table, n`next
      ensures Valid() && nodes == old(nodes) + {n} && entries == old(entries)[n.key := n]
    {
      hide Entries, Chain;
      var b := Bucket(n.key);
      n.next := table[b];
      table[b] := n;
      assert |chains| == SLOTS && b < SLOTS;
      nodes := nodes + {n};
      entries := entries[n.key := n];
      chains := chains[b := [n] + chains[b]];
      forall c | 0 <= c < SLOTS
        ensures Chain(c)
      {
        assert old(Chain(c));
        if c == b {
          FirstInChain(c, n);
        } else {
          OtherChain(c);
        }
      }
      OneMoreEntry(n);
    }

    lemma EntryIsNode(key: Key)
      requires Entries() && key in entries
      ensures entries[key] in nodes && entries[key].key == key && InTable(key)
      ensures entries[key := entries[key]] == entries
    {
    }

    twostate lemma SourcesBut(key: Key)
      requires old(Entries()) && Entries() && key in entries && entries == old(entries)[key := entries[key]]
      requires forall m :: m in old(nodes) ==> m.src == old(m.src)
      ensures Sources() == old(Sources())[key := entries[key].src]
    {
    }

    lemma SourcesHas(key: Key)
      requires Entries() && key in entries
      ensures Sources()[key := entries[key].src] == Sources()
    {
    }

    lemma NotInTable(key: Key)
      requires Entries() && !InTable(key)
      ensures key !in entries
    {
    }

    method AddEntry(key: Key) returns (beside: bool, n: NatMap?)
      requires Valid()
      modifies this, table
      ensures beside <==> !InTable(key)
      ensures Valid() && old(nodes) <= nodes && fresh(nodes - old(nodes))
      ensures if beside then entries == old(entries) && Sources() == old(Sources())
              else && n != null && n in nodes && entries == old(entries)[key := n]
                   && Sources() == old(Sources())[key := n.src]
    {
      hide Entries, Chains, Sources;
      var found;
      beside, found := LookupNatMap(key);
      if beside {
        return true, null;
      }
      if found != null {
        n := found;
        EntryIsNode(key);
      } else {
        n := new NatMap(key);
        Link(n);
      }
      SourcesBut(key);
    }

    method SetSource(n: NatMap, src: Addr)
      requires Valid() && n in nodes && n.key in entries && entries[n.key] == n
      modifies n`src
      ensures Valid() && Sources() == old(Sources())[n.key := src]
    {
      n.src := src;
      forall b | 0 <= b < SLOTS
        ensures Chain(b)
      {
        assert old(Chain(b));
        OtherChain(b);
      }
    }

    /** The entry for key, which is added if need be. */
    method FindOrAdd(key: Key) returns (beside: bool, n: NatMap?)
      requires Valid()
      modifies this, table
      ensures beside <==> !InTable(key)
      ensures Valid() && old(nodes) <= nodes && fresh(nodes - old(nodes))
      ensures if beside then Sources() == old(Sources())
              else && n != null && key in entries && entries[key] == n && n in nodes && n.key == key
                   && Sources() == old(Sources())[key := n.src]
    {
      hide Entries, Chains, Sources;
      beside, n := LookupNatMap(key);
      if beside {
        return;
      }
      if n != null {
        SourcesHas(key);
      } else {
        beside, n := AddEntry(key);
      }
      EntryIsNode(key);
    }

    /** Record src in the entry for key. */
    method Store(key: Key, src: Addr) returns (beside: bool)
      requires Valid()
      modifies this, table, nodes
      ensures beside <==> !InTable(key)
      ensures Valid() && Sources() == if beside then old(Sources()) else old(Sources())[key := src]
      ensures old(nodes) <= nodes && fresh(nodes - old(nodes))
    {
      hide Entries, Chains, Sources;
      var n;
      beside, n := FindOrAdd(key);
      if !beside {
        SetSource(n, src);
      }
    }

    /** A packet of the subnet on its way out gets the gateway's address as its source. */
    method HandleOutgoing(p: Packet, ifIP: Addr) returns (beside: bool, p': Packet)
      requires Valid()
      modifies this, table, nodes
      ensures beside <==> p.dst[3] >= 255
      ensures Valid() && old(nodes) <= nodes && fresh(nodes - old(nodes))
      ensures if beside then Sources() == old(Sources())
              else && Sources() == old(Sources())[Key(p.srcPort, p.dst, p.dstPort) := p.src]
                   && p' == p.(src := ifIP)
    {
      beside := Store(Outgoing(p.srcPort, p.src, p.dst, p.dstPort).key, p.src);
      p' := p.(src := ifIP);
    }

    /** WLAN_NAT_ADD. */
    method HandleNatAdd(nwSrc: Addr, nwDst: Addr, tpSrc: nat, tpDst: nat) returns (beside: bool)
      requires Valid()
      modifies this, table, nodes
      ensures beside <==> nwDst[3] >= 255
      ensures Valid() && old(nodes) <= nodes && fresh(nodes - old(nodes))
      ensures Sources()
              == if beside then old(Sources()) else old(Sources())[Key(tpSrc, nwDst, tpSrc) := nwSrc]
    {
      beside := Store(NatAdd(nwSrc, nwDst, tpSrc, tpDst).key, nwSrc);
    }

    /** A packet for the gateway goes to the address recorded for its key, if there is one. */
    method HandleIncoming(p: Packet, ifIP: Addr) returns (beside: bool, p': Packet)
      requires Valid()
      ensures beside <==> p.dst == ifIP && p.src[3] >= 255
      ensures var key := Key(p.dstPort, p.src, p.srcPort);
              p' == if p.dst == ifIP && key in Sources() then p.(dst := Sources()[key]) else p
    {
      beside, p' := false, p;
      if p.dst == ifIP {
        var n;
        beside, n := LookupNatMap(Incoming(p.srcPort, p.src, p.dstPort).key);
        if n != null {
          p' := p.(dst := n.src);
        }
      }
    }
  }
}
