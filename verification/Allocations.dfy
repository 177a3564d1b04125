/** Facts about one network reconcile: what it appends, that names stay unique, and what pruning would keep. */
module Allocations {
  import opened Api
  import opened NetworkController

  /** The appended entries are those of the member peers that had none, with their first rule's address. */
  lemma {:induction false} FreshExact(n: Network, peers: seq<Peer>, a: IPAssignment)
    ensures a in Fresh(n, peers) <==>
              exists p <- peers :: Gains(n, p) &&
                a == IPAssignment(p.meta.name, AssignedAddress(p.meta, n.spec.allocations).value)
  {
    if peers != [] {
      var k := |peers| - 1;
      FreshExact(n, peers[..k], a);
      assert peers == peers[..k] + [peers[k]];
    }
  }

  lemma {:induction false} NoGains(n: Network, peers: seq<Peer>)
    requires forall p <- peers :: !Gains(n, p)
    ensures Fresh(n, peers) == []
  {
    if peers != [] {
      NoGains(n, peers[..|peers| - 1]);
    }
  }

  lemma NamesOf(allocations: seq<IPAssignment>, name: string)
    ensures name in AllocationNames(allocations) <==> exists a <- allocations :: a.name == name
  {
    var names := AllocationNames(allocations);
    if name in names {
      var i :| 0 <= i < |names| && names[i] == name;
      assert allocations[i] in allocations;
    }
    if a :| a in allocations && a.name == name {
      var i :| 0 <= i < |allocations| && allocations[i] == a;
      assert names[i] == name;
    }
  }

  lemma NamesAppend(a: seq<IPAssignment>, b: seq<IPAssignment>)
    ensures AllocationNames(a + b) == AllocationNames(a) + AllocationNames(b)
  {
  }

  /** A recorded name keeps its address when entries are appended. */
  lemma RecordedAppend(a: seq<IPAssignment>, b: seq<IPAssignment>, name: string)
    requires Recorded(a, name).Some?
    ensures Recorded(a + b, name) == Recorded(a, name)
  {
    NamesAppend(a, b);
    var names := AllocationNames(a + b);
    var i := Position(AllocationNames(a), name).value;
    assert names[i] == name && name in names;
    assert forall k :: 0 <= k < i ==> names[k] == AllocationNames(a)[k];
  }

  lemma RecordedIsEntry(allocations: seq<IPAssignment>, name: string)
    requires Recorded(allocations, name).Some?
    ensures IPAssignment(name, Recorded(allocations, name).value) in allocations
  {
    var i := Position(AllocationNames(allocations), name).value;
    assert allocations[i] in allocations && allocations[i].name == name;
  }

  lemma {:induction false} FreshNamesUnique(n: Network, peers: seq<Peer>)
    requires UniqueNames(PeerNames(peers))
    ensures UniqueNames(AllocationNames(Fresh(n, peers)))
    ensures forall i :: 0 <= i < |Fresh(n, peers)| ==>
              && Fresh(n, peers)[i].name in PeerNames(peers)
              && Fresh(n, peers)[i].name !in AllocationNames(n.status.allocations)
  {
    if peers != [] {
      var k := |peers| - 1;
      var init := peers[..k];
      assert PeerNames(init) == PeerNames(peers)[..k];
      FreshNamesUnique(n, init);
      var name := peers[k].meta.name;
      assert PeerNames(peers) == PeerNames(init) + [name];
      assert forall i :: 0 <= i < k ==> PeerNames(init)[i] == PeerNames(peers)[i] != PeerNames(peers)[k];
      assert name !in PeerNames(init);
      var before := AllocationNames(Fresh(n, init));
      assert forall i :: 0 <= i < |before| ==> before[i] == Fresh(n, init)[i].name != name;
      assert AllocationNames(Fresh(n, peers)) == before + if Gains(n, peers[k]) then [name] else [];
    }
  }

  /** However the peer list was read, a reconcile keeps allocation names unique and only appends. */
  lemma NextAllocationsExtend(n: Network, peers: seq<Peer>)
    requires UniqueNames(AllocationNames(n.status.allocations)) && UniqueNames(PeerNames(peers))
    ensures UniqueNames(AllocationNames(NextAllocations(n, peers)))
    ensures n.status.allocations <= NextAllocations(n, peers)
  {
    FreshNamesUnique(n, peers);
    var stored, added := n.status.allocations, Fresh(n, peers);
    NamesAppend(stored, added);
    assert forall i :: 0 <= i < |stored| ==> AllocationNames(stored)[i] in AllocationNames(stored);
    assert forall i :: 0 <= i < |added| ==> AllocationNames(added)[i] == added[i].name;
  }

  lemma {:induction false} LiveCounts(allocations: seq<IPAssignment>, names: set<string>, a: IPAssignment)
    ensures multiset(Live(allocations, names))[a] == if a.name in names then multiset(allocations)[a] else 0
  {
    if allocations != [] {
      var k := |allocations| - 1;
      LiveCounts(allocations[..k], names, a);
      assert allocations == allocations[..k] + [allocations[k]];
    }
  }

  lemma {:induction false} LiveShorter(allocations: seq<IPAssignment>, names: set<string>)
    ensures |Live(allocations, names)| <= |allocations|
    ensures |Live(allocations, names)| == |allocations| <==> forall a <- allocations :: a.name in names
    ensures (forall a <- allocations :: a.name in names) ==> Live(allocations, names) == allocations
  {
    if allocations != [] {
      var k := |allocations| - 1;
      LiveShorter(allocations[..k], names);
      assert allocations == allocations[..k] + [allocations[k]];
      assert forall a <- allocations[..k] :: a in allocations;
    }
  }

  /** The dropped list would keep exactly the entries of present members, unchanged; it equals the stored list
      exactly when every stored name is a present member. */
  lemma PruneExact(allocations: seq<IPAssignment>, names: set<string>)
    ensures forall a :: multiset(Live(allocations, names))[a] == if a.name in names then multiset(allocations)[a] else 0
    ensures Live(allocations, names) == allocations <==> forall a <- allocations :: a.name in names
  {
    forall a ensures multiset(Live(allocations, names))[a] == if a.name in names then multiset(allocations)[a] else 0 {
      LiveCounts(allocations, names, a);
    }
    LiveShorter(allocations, names);
  }
}
