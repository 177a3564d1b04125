/** Executions with fixed specs in which every reconcile may read old lists: what all their states satisfy, and where
    they come to rest. */
module StaleConvergence {
  import opened Common
  import opened Text
  import opened Api
  import opened ApiServer
  import opened NetworkController
  import opened PeerController
  import opened Allocations
  import opened Runs
  import opened Convergence
  import opened StaleReads
  import Divergence
  import MeshFacts
  import NetworkChoice

  /** One more state: a reconcile of either controller with stale reads. */
  ghost predicate Reconciled(h: History, d: Cluster)
    requires h != []
  {
    || (exists seen, cache, name: string ::
          PastPeers(h, seen) && FromPast(h, cache) && d == PeerStepFrom(Current(h), seen, cache, name))
    || (exists cache, name: string :: FromPast(h, cache) && d == NetworkStep(Current(h), cache, name))
  }

  /** A behaviour in which only controllers act. */
  ghost predicate Execution(h: History) {
    && h != []
    && Start(h[0])
    && forall k :: 1 <= k < |h| ==> Reconciled(h[..k], h[k])
  }

  lemma ExecutionIsBehaviour(h: History)
    requires Execution(h)
    ensures Behaviour(h)
  {
    forall k | 1 <= k < |h| ensures Next(h[..k], h[k]) {
      assert Reconciled(h[..k], h[k]);
    }
  }

  lemma ExecutionPrefix(h: History, k: nat)
    requires Execution(h) && 1 <= k <= |h|
    ensures Execution(h[..k])
  {
    var g: History := h[..k];
    forall i | 1 <= i < |g| ensures Reconciled(g[..i], g[i]) {
      assert g[..i] == h[..i];
    }
  }

  // ---- The invariant ----

  /** Placed peers stay where they are, and addressed peers keep their address. */
  ghost predicate Kept(c: Cluster, d: Cluster) {
    && |c.peers| == |d.peers|
    && forall i :: 0 <= i < |c.peers| ==>
         && (c.peers[i].status.network == "" || d.peers[i].status.network == c.peers[i].status.network)
         && (c.peers[i].status.address == "" || d.peers[i].status.address == c.peers[i].status.address)
  }

  ghost predicate AllInv(h: History) {
    && h != []
    && (forall k :: 0 <= k < |h| ==> Inv(h[0], h[k]))
    && (forall k :: 0 <= k < |h| ==> Kept(h[k], Current(h)))
  }

  /** The lists of a cache were those of states that satisfied the invariant. */
  ghost predicate TrueCache(c0: Cluster, c: Cluster, cache: Cluster, a: Cluster, b: Cluster) {
    && Inv(c0, a) && Inv(c0, b) && Kept(a, c)
    && cache.peers == a.peers && cache.networks == b.networks && cache.bindings == c0.bindings
    && NetworkVersionsTell(cache.networks, c.networks)
  }

  lemma CacheIsTrue(h: History, cache: Cluster) returns (a: Cluster, b: Cluster)
    requires AllInv(h) && Sound(h) && FromPast(h, cache)
    ensures TrueCache(h[0], Current(h), cache, a, b)
  {
    PastCache(h, cache);
    var x: nat :| x < |h| && cache.peers == h[x].peers;
    var y: nat :| y < |h| && cache.networks == h[y].networks;
    var z: nat :| z < |h| && cache.bindings == h[z].bindings;
    a, b := h[x], h[y];
    assert Inv(h[0], h[z]);
  }

  /** An old list of networks records the home address of a peer or nothing. */
  lemma StaleAddressTrue(c0: Cluster, b: Cluster, i: nat, network: string)
    requires Inv(c0, b) && i < |c0.peers| && FindNetwork(b.networks, network).Some?
    ensures var r := Recorded(FindNetwork(b.networks, network).value.status.allocations, c0.peers[i].meta.name);
            r.Some? ==> r.value == HomeAddress(c0, c0.peers[i].meta)
  {
    var j := FoundAt(b.networks, network);
    if Recorded(b.networks[j].status.allocations, b.peers[i].meta.name).Some? {
      RecordedTrue(c0, b, i, j);
    }
  }

  /** What a computed status can be: unchanged, or placed, or addressed, or with another list. */
  ghost predicate Shaped(p: Peer, networks: seq<Network>, s: PeerStatus) {
    || s == p.status
    || (p.status.network == "" && Some(s.network) == NetworkChoice.ChosenName(p.meta, networks)
        && s == p.status.(network := s.network))
    || (p.status.network != "" && p.status.address == "" && FindNetwork(networks, p.status.network).Some?
        && Recorded(FindNetwork(networks, p.status.network).value.status.allocations, p.meta.name) == Some(s.address)
        && s == p.status.(address := s.address))
    || (p.status.network != "" && p.status.address != "" && s == p.status.(peers := s.peers))
  }

  lemma StatusShape(p: Peer, cache: Cluster, s: PeerStatus)
    requires NextStatus(p, cache) == Ok(s)
    ensures Shaped(p, cache.networks, s)
    ensures s.peers != p.status.peers ==> p.status.address != "" && Mesh(p, cache.peers, cache.bindings) == Ok(s.peers)
  {
  }

  /** A status computed from old lists is unplaced or at home, unaddressed or at its home address. */
  lemma StaleStatusTrue(c0: Cluster, c: Cluster, cache: Cluster, a: Cluster, b: Cluster, i: nat, s: PeerStatus)
    requires Inv(c0, c) && TrueCache(c0, c, cache, a, b) && i < |c.peers| && NextStatus(c.peers[i], cache) == Ok(s)
    ensures PeerTrue(c0, c.peers[i].(status := s))
    ensures c.peers[i].status.network == "" || s.network == c.peers[i].status.network
  {
    StatusShape(c.peers[i], cache, s);
    TrueShape(c0, b, c.peers[i], i, s) by {
      assert PeerTrue(c0, c.peers[i]);
      assert c.peers[i].meta == c0.peers[i].meta;
    }
  }

  lemma TrueShape(c0: Cluster, b: Cluster, p: Peer, i: nat, s: PeerStatus)
    requires Inv(c0, b) && i < |c0.peers| && p.meta == c0.peers[i].meta && PeerTrue(c0, p)
    requires Shaped(p, b.networks, s)
    ensures PeerTrue(c0, p.(status := s))
    ensures p.status.network == "" || s.network == p.status.network
  {
    if p.status.network == "" {
      SameHome(c0, b, p.meta);
    } else if p.status.address == "" && s != p.status {
      StaleAddressTrue(c0, b, i, p.status.network);
    }
  }

  lemma ShapedKept(c: Cluster, i: nat, networks: seq<Network>, s: PeerStatus)
    requires i < |c.peers| && Shaped(c.peers[i], networks, s)
    ensures Kept(c, PutPeer(c, i, s))
  {
  }

  lemma StalePeerStepInv(c0: Cluster, c: Cluster, seen: seq<Peer>, cache: Cluster, a: Cluster, b: Cluster, name: string)
    requires Inv(c0, c) && TrueCache(c0, c, cache, a, b) && PeerVersionsTell(seen, c.peers)
    ensures Inv(c0, PeerStepFrom(c, seen, cache, name)) && Kept(c, PeerStepFrom(c, seen, cache, name))
  {
    hide PeerStepFrom, NextStatus, Shaped;
    if PeerStepFrom(c, seen, cache, name) != c {
      var i, s := PeerCommitAt(c, seen, cache, name);
      StaleStatusTrue(c0, c, cache, a, b, i, s);
      StatusShape(c.peers[i], cache, s);
      ShapedKept(c, i, cache.networks, s);
      PutPeerInv(c0, c, i, s);
    }
  }

  /** An entry computed from an old peer list is that of a peer which is still placed in the network. */
  lemma StaleEntryTrue(c0: Cluster, c: Cluster, old': Cluster, j: nat, a: IPAssignment)
    requires Inv(c0, c) && Inv(c0, old') && Kept(old', c) && j < |c.networks| && a in Fresh(c.networks[j], old'.peers)
    ensures EntryTrue(c0, c, c.networks[j].name, a)
  {
    var n := c.networks[j];
    FreshExact(n, old'.peers, a);
    var p :| p in old'.peers && Gains(n, p) &&
        a == IPAssignment(p.meta.name, AssignedAddress(p.meta, n.spec.allocations).value);
    var k: nat :| k < |old'.peers| && old'.peers[k] == p;
    assert c0.networks[j] in c0.networks && PeerTrue(c0, p);
    NetworkOfHome(c0, c, j, p.meta);
    assert c.peers[k].meta == p.meta && c.peers[k].status.network == n.name;
  }

  lemma StaleNetworkStepInv(c0: Cluster, c: Cluster, cache: Cluster, a: Cluster, b: Cluster, name: string)
    requires Inv(c0, c) && TrueCache(c0, c, cache, a, b)
    ensures Inv(c0, NetworkStep(c, cache, name)) && Kept(c, NetworkStep(c, cache, name))
  {
    if NetworkStep(c, cache, name) != c {
      var j := NetworkCommitAt(c, cache, name);
      SameSpecsNames(c0, a);
      forall x | x in Fresh(c.networks[j], a.peers) ensures EntryTrue(c0, c, c.networks[j].name, x) {
        StaleEntryTrue(c0, c, a, j, x);
      }
      PutNetworkInv(c0, c, j, a.peers);
    }
  }

  lemma ReconciledInv(h: History, d: Cluster)
    requires AllInv(h) && Sound(h) && Reconciled(h, d)
    ensures Inv(h[0], d) && Kept(Current(h), d)
  {
    var c := Current(h);
    assert Inv(h[0], c);
    if seen, cache, name :| PastPeers(h, seen) && FromPast(h, cache) && d == PeerStepFrom(c, seen, cache, name) {
      var a, b := CacheIsTrue(h, cache);
      PastTells(h, seen);
      StalePeerStepInv(h[0], c, seen, cache, a, b, name);
    } else {
      var cache, name :| FromPast(h, cache) && d == NetworkStep(c, cache, name);
      var a, b := CacheIsTrue(h, cache);
      StaleNetworkStepInv(h[0], c, cache, a, b, name);
    }
  }

  lemma AllInvExtends(h: History, g: History)
    requires AllInv(h) && |g| == |h| + 1 && g[..|h|] == h
    requires Inv(h[0], Current(g)) && Kept(Current(h), Current(g))
    ensures AllInv(g)
  {
    forall k | 0 <= k < |g| ensures Inv(g[0], g[k]) && Kept(g[k], Current(g)) {
      assert g[0] == h[0];
      if k < |h| {
        assert g[k] == h[k] && Kept(h[k], Current(h));
      }
    }
  }

  lemma SingleInv(h: History)
    requires |h| == 1 && Start(h[0])
    ensures AllInv(h)
  {
    hide PeerTrue, EntryTrue;
    PristineInv(h[0]);
  }

  lemma LastReconciled(h: History)
    requires Execution(h) && |h| > 1
    ensures Reconciled(h[..|h| - 1], Current(h))
  {
  }

  lemma LastInv(h: History, init: History)
    requires Execution(h) && |h| > 1 && init == h[..|h| - 1] && AllInv(init) && Sound(init)
    ensures AllInv(h)
  {
    LastReconciled(h);
    ReconciledInv(init, Current(h));
    AllInvExtends(init, h);
  }

  lemma ExecutionSound(h: History)
    requires Execution(h)
    ensures Sound(h)
  {
    ExecutionIsBehaviour(h);
    BehaviourSound(h);
  }

  lemma {:induction false} ExecutionInv(h: History)
    requires Execution(h)
    ensures AllInv(h)
    decreases |h|
  {
    if |h| == 1 {
      SingleInv(h);
    } else {
      var init: History := h[..|h| - 1];
      ExecutionPrefix(h, |h| - 1);
      ExecutionInv(init);
      ExecutionSound(init);
      LastInv(h, init);
    }
  }

  /** In every state that controllers can reach, however old the lists they read: a peer is unplaced or at home,
      unaddressed or at its home address, and every allocation is that of a placed peer, with its home address. */
  lemma ReachableInv(h: History, k: nat)
    requires Execution(h) && k < |h|
    ensures Inv(h[0], h[k])
  {
    ExecutionInv(h);
  }

  // ---- Main results ----

  /** Confluence: wherever old reads lead, a state in which no up-to-date reconcile writes is the closed form. */
  lemma Confluence(h: History)
    requires Execution(h) && Quiescent(Current(h))
    ensures SameSpecs(h[0], Current(h)) && Final(h[0], Current(h))
  {
    ReachableInv(h, |h| - 1);
    RestIsDone(h[0], Current(h));
    DoneIsFinal(h[0], Current(h));
  }

  /** If each rule serves one peer, no two peers of a network share an address in any reachable state. */
  lemma AddressesDistinct(h: History, k: nat)
    requires Execution(h) && k < |h| && OneRuleEach(h[0])
    ensures NoSharedAddress(h[k])
  {
    ReachableInv(h, k);
    TrueAddressesDistinct(h[0], h[k]);
  }

  /** A network reconcile never meets the allocation error for a peer that it sees in its network; the list it wants
      to store records for that peer the address of the first matching rule, and is stored if the write is accepted. */
  lemma PlacedPeersAllocate(h: History, cache: Cluster, p: Peer, n: Network)
    requires Execution(h) && FromPast(h, cache)
    requires p in cache.peers && n in cache.networks && p.status.network == n.name
    ensures AssignedAddress(p.meta, n.spec.allocations).Some?
    ensures Recorded(NextAllocations(n, cache.peers), p.meta.name) == AssignedAddress(p.meta, n.spec.allocations)
    ensures var d := NetworkStep(Current(h), cache, n.name);
            d != Current(h) ==>
              && FindNetwork(d.networks, n.name).Some?
              && Recorded(FindNetwork(d.networks, n.name).value.status.allocations, p.meta.name)
                 == AssignedAddress(p.meta, n.spec.allocations)
  {
    ExecutionInv(h);
    ExecutionSound(h);
    var a, b := CacheIsTrue(h, cache);
    SeenPeerAllocates(h[0], a, b, p, n);
    PastCache(h, cache);
    if NetworkStep(Current(h), cache, n.name) != Current(h) {
      StoredList(Current(h), cache, n);
    }
  }

  /** An accepted network write stores the computed list. */
  lemma StoredList(c: Cluster, cache: Cluster, n: Network)
    requires NetworkVersionsTell(cache.networks, c.networks) && n in cache.networks
    requires UniqueNames(NetworkNames(cache.networks)) && UniqueNames(NetworkNames(c.networks))
    requires NetworkStep(c, cache, n.name) != c
    ensures var found := FindNetwork(NetworkStep(c, cache, n.name).networks, n.name);
            found.Some? && found.value.status.allocations == NextAllocations(n, cache.peers)
  {
    var j := NetworkCommitAt(c, cache, n.name);
    FindIn(cache.networks, n);
    FindIn(cache.networks, c.networks[j]);
    FoundAfterPut(c, j, NetworkStatus(NextAllocations(n, cache.peers)));
  }

  lemma FoundAfterPut(c: Cluster, j: nat, s: NetworkStatus)
    requires j < |c.networks| && UniqueNames(NetworkNames(c.networks))
    ensures var found := FindNetwork(PutNetwork(c, j, s).networks, c.networks[j].name);
            found.Some? && found.value.status == s
  {
    PositionUnique(NetworkNames(c.networks), j);
    FindAfterPut(c, j, s, c.networks[j].name);
  }

  lemma SeenPeerAllocates(c0: Cluster, a: Cluster, b: Cluster, p: Peer, n: Network)
    requires Inv(c0, a) && Inv(c0, b) && p in a.peers && n in b.networks && p.status.network == n.name
    ensures AssignedAddress(p.meta, n.spec.allocations).Some?
    ensures Recorded(NextAllocations(n, a.peers), p.meta.name) == AssignedAddress(p.meta, n.spec.allocations)
  {
    var i: nat :| i < |a.peers| && a.peers[i] == p;
    var j: nat :| j < |b.networks| && b.networks[j] == n;
    AtHome(c0, a, b, i, j);
    if p.meta.name in AllocationNames(n.status.allocations) {
      RecordedTrue(c0, b, i, j);
      RecordedAppend(n.status.allocations, Fresh(n, a.peers), p.meta.name);
    } else {
      SameSpecsNames(c0, a);
      NewEntryTrue(c0, a, n, p);
    }
  }

  lemma AtHome(c0: Cluster, a: Cluster, b: Cluster, i: nat, j: nat)
    requires Inv(c0, a) && Inv(c0, b) && i < |a.peers| && j < |b.networks|
    requires a.peers[i].status.network == b.networks[j].name
    ensures AssignedAddress(a.peers[i].meta, b.networks[j].spec.allocations) == Some(HomeAddress(c0, a.peers[i].meta))
    ensures i < |b.peers| && b.peers[i].meta == a.peers[i].meta
  {
    assert c0.networks[j] in c0.networks && PeerTrue(c0, a.peers[i]);
    NetworkOfHome(c0, b, j, a.peers[i].meta);
  }

  /** The entry that a listed peer without one gains is the one found under its name. */
  lemma NewEntryTrue(c0: Cluster, a: Cluster, n: Network, p: Peer)
    requires WellFormed(a) && p in a.peers && p.status.network == n.name
    requires p.meta.name !in AllocationNames(n.status.allocations)
    requires AssignedAddress(p.meta, n.spec.allocations).Some?
    ensures Recorded(NextAllocations(n, a.peers), p.meta.name) == AssignedAddress(p.meta, n.spec.allocations)
  {
    var stored, added := n.status.allocations, Fresh(n, a.peers);
    FreshExact(n, a.peers, IPAssignment(p.meta.name, AssignedAddress(p.meta, n.spec.allocations).value));
    NamesAppend(stored, added);
    NamesOf(added, p.meta.name);
    NamesOf(stored, p.meta.name);
    RecordedIsEntry(stored + added, p.meta.name);
    var found := IPAssignment(p.meta.name, Recorded(stored + added, p.meta.name).value);
    FreshExact(n, a.peers, found);
    var q :| q in a.peers && Gains(n, q) &&
        found == IPAssignment(q.meta.name, AssignedAddress(q.meta, n.spec.allocations).value);
    MeshFacts.SameName(a.peers, p, q);
  }

  // ---- Atomic runs are executions ----

  lemma AtomicReconciled(h: History, e: Event)
    requires h != []
    ensures Reconciled(h, Step(Current(h), e))
  {
    var c := Current(h);
    assert FromPast(h, c) by {
      assert c == h[|h| - 1];
    }
  }

  lemma ExecutionExtends(h: History, d: Cluster)
    requires Execution(h) && Reconciled(h, d)
    ensures Execution(h + [d])
  {
    var g: History := h + [d];
    forall k | 1 <= k < |g| ensures Reconciled(g[..k], g[k]) {
      assert g[..k] == h[..k];
      if k == |h| {
        assert h[..k] == h;
      }
    }
  }

  /** A run in which every reconcile reads the state it writes is one of these executions. */
  lemma {:induction false} RunIsExecution(c0: Cluster, es: seq<Event>) returns (h: History)
    requires Start(c0)
    ensures Execution(h) && h[0] == c0 && Current(h) == Run(c0, es)
    decreases |es|
  {
    if es == [] {
      h := [c0];
    } else {
      var k := |es| - 1;
      var init := RunIsExecution(c0, es[..k]);
      assert es == es[..k] + [es[k]];
      Divergence.RunSnoc(c0, es[..k], es[k]);
      AtomicReconciled(init, es[k]);
      ExecutionExtends(init, Run(c0, es));
      h := init + [Run(c0, es)];
    }
  }

  // ---- Which lists depend on timing ----

  /** A list computed for a peer as it is now, over old peers, names someone it is linked to in the end. */
  lemma StaleMeshWitnessed(c0: Cluster, c: Cluster, a: Cluster, i: nat, cfgs: seq<PeerConfiguration>)
    requires Inv(c0, c) && Inv(c0, a) && i < |c.peers| && c.peers[i].status.address != ""
    requires Mesh(c.peers[i], a.peers, a.bindings) == Ok(cfgs) && cfgs != []
    ensures Splits(c0.peers[i].spec.endpoint)
    ensures exists q <- Placed(c0) :: Linked(Placed(c0)[i], q) && Splits(q.spec.endpoint)
  {
    Divergence.ListWitnessed(c0, c, a, i, cfgs[0]);
  }

  lemma StaleStepWitnessed(c0: Cluster, c: Cluster, seen: seq<Peer>, cache: Cluster, a: Cluster, b: Cluster,
                           name: string, i: nat)
    requires Inv(c0, c) && TrueCache(c0, c, cache, a, b) && PeerVersionsTell(seen, c.peers)
    requires i < |c.peers| && Divergence.Witnessed(c0, c, i)
    ensures SameSpecs(c0, PeerStepFrom(c, seen, cache, name))
    ensures Divergence.Witnessed(c0, PeerStepFrom(c, seen, cache, name), i)
  {
    StalePeerStepInv(c0, c, seen, cache, a, b, name);
    if PeerStepFrom(c, seen, cache, name) != c {
      var k, s := PeerCommitAt(c, seen, cache, name);
      if k == i && s.peers != c.peers[i].status.peers && s.peers != [] {
        StatusShape(c.peers[i], cache, s);
        StaleMeshWitnessed(c0, c, a, i, s.peers);
      }
    }
  }

  lemma ReconciledWitnessed(h: History, d: Cluster, i: nat)
    requires AllInv(h) && Sound(h) && Reconciled(h, d)
    requires SameSpecs(h[0], Current(h)) && i < |Current(h).peers| && Divergence.Witnessed(h[0], Current(h), i)
    ensures SameSpecs(h[0], d) && Divergence.Witnessed(h[0], d, i)
  {
    var c := Current(h);
    assert Inv(h[0], c);
    ReconciledInv(h, d);
    if seen, cache, name :| PastPeers(h, seen) && FromPast(h, cache) && d == PeerStepFrom(c, seen, cache, name) {
      var a, b := CacheIsTrue(h, cache);
      PastTells(h, seen);
      StaleStepWitnessed(h[0], c, seen, cache, a, b, name, i);
    } else {
      var cache, name :| FromPast(h, cache) && d == NetworkStep(c, cache, name);
      NetworkStepWitnessed(h[0], c, cache, name, i);
    }
  }

  lemma NetworkStepWitnessed(c0: Cluster, c: Cluster, cache: Cluster, name: string, i: nat)
    requires SameSpecs(c0, c) && SameSpecs(c0, NetworkStep(c, cache, name)) && i < |c.peers|
    requires Divergence.Witnessed(c0, c, i)
    ensures Divergence.Witnessed(c0, NetworkStep(c, cache, name), i)
  {
    assert NetworkStep(c, cache, name).peers == c.peers;
  }

  lemma {:induction false} ExecutionWitnessed(h: History, i: nat)
    requires Execution(h) && i < |h[0].peers|
    ensures SameSpecs(h[0], Current(h)) && Divergence.Witnessed(h[0], Current(h), i)
    decreases |h|
  {
    if |h| == 1 {
      assert h[0].peers[i] in h[0].peers;
    } else {
      var init: History := h[..|h| - 1];
      ExecutionPrefix(h, |h| - 1);
      ExecutionWitnessed(init, i);
      ExecutionInv(init);
      ExecutionSound(init);
      LastReconciled(h);
      ReconciledWitnessed(init, Current(h), i);
    }
  }

  /** Old reads or not, a peer that is not jammed rests with its final mesh, or with nothing if that cannot be
      computed. */
  lemma UnjammedList(h: History, i: nat)
    requires Execution(h) && i < |h[0].peers| && !Divergence.Jammed(h[0], i) && Quiescent(Current(h))
    ensures |Current(h).peers| == |h[0].peers|
    ensures Current(h).peers[i].status.peers == match FinalPeers(h[0], i) { case Ok(cfgs) => cfgs case Err => [] }
  {
    Confluence(h);
    ReachableInv(h, |h| - 1);
    ExecutionWitnessed(h, i);
  }

  /** Two executions from the same start that rest with the same list for peer `i`. */
  ghost predicate SameRest(g: History, h: History, i: nat)
    requires g != [] && h != []
  {
    && i < |Current(g).peers| && i < |Current(h).peers|
    && Current(g).peers[i].status.peers == Current(h).peers[i].status.peers
  }

  ghost predicate RestsFrom(c0: Cluster, h: History) {
    Execution(h) && h[0] == c0 && Quiescent(Current(h))
  }

  /** A peer's resting list is the same in every execution, with whatever old reads, exactly when it is not jammed. */
  lemma ListDeterminedIffNotJammed(c0: Cluster, i: nat)
    requires Start(c0) && i < |c0.peers|
    ensures !Divergence.Jammed(c0, i) <==> forall g, h :: RestsFrom(c0, g) && RestsFrom(c0, h) ==> SameRest(g, h, i)
  {
    if Divergence.Jammed(c0, i) {
      var es := Divergence.EmptyRun(c0, i);
      var fs := Divergence.ListedRun(c0, i);
      var g := RunIsExecution(c0, es);
      var h := RunIsExecution(c0, fs);
      assert RestsFrom(c0, g) && RestsFrom(c0, h) && !SameRest(g, h, i);
    } else {
      forall g, h | RestsFrom(c0, g) && RestsFrom(c0, h) ensures SameRest(g, h, i) {
        UnjammedList(g, i);
        UnjammedList(h, i);
      }
    }
  }
}
