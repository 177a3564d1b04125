/** How often reconciles with old reads can write. */
module StaleWrites {
  import opened Common
  import opened Api
  import opened ApiServer
  import opened NetworkController
  import opened PeerController
  import opened Runs
  import opened Convergence
  import opened StaleReads
  import opened StaleConvergence
  import Allocations
  import Divergence
  import MeshFacts
  import NetworkChoice

  // ---- Reads in order ----

  /** A peer reconcile that reads its own object in state `e` and lists the peers in state `a`. */
  ghost predicate PeerReads(h: History, e: nat, a: nat, cache: Cluster, name: string, d: Cluster)
    requires h != []
  {
    && e < |h| && a < |h| && cache.peers == h[a].peers
    && FromPast(h, cache)
    && d == PeerStepFrom(Current(h), h[e].peers, cache, name)
  }

  /** A reconcile that lists peers no older than the object it read before; other lists may be any past ones. */
  ghost predicate ReconciledInOrder(h: History, d: Cluster)
    requires h != []
  {
    || (exists e: nat, a: nat, cache, name: string :: e <= a && PeerReads(h, e, a, cache, name, d))
    || (exists cache, name: string :: FromPast(h, cache) && d == NetworkStep(Current(h), cache, name))
  }

  /** An execution in which the peer cache never moves backwards within one reconcile. */
  ghost predicate OrderedExecution(h: History) {
    && h != []
    && Start(h[0])
    && forall k :: 1 <= k < |h| ==> ReconciledInOrder(h[..k], h[k])
  }

  lemma InOrderReconciled(h: History, d: Cluster)
    requires h != [] && ReconciledInOrder(h, d)
    ensures Reconciled(h, d)
  {
    if e: nat, a: nat, cache, name: string :| e <= a && PeerReads(h, e, a, cache, name, d) {
      assert PastPeers(h, h[e].peers);
    }
  }

  lemma OrderedIsExecution(h: History)
    requires OrderedExecution(h)
    ensures Execution(h)
  {
    forall k | 1 <= k < |h| ensures Reconciled(h[..k], h[k]) {
      InOrderReconciled(h[..k], h[k]);
    }
  }

  lemma OrderedPrefix(h: History, k: nat)
    requires OrderedExecution(h) && 1 <= k <= |h|
    ensures OrderedExecution(h[..k])
  {
    var g: History := h[..k];
    forall i | 1 <= i < |g| ensures ReconciledInOrder(g[..i], g[i]) {
      assert g[..i] == h[..i];
    }
  }

  // ---- What can still change in views ----

  /** Missing networks and addresses. */
  ghost function Lacking(c: Cluster): nat {
    |NoNetwork(c)| + |NoAddress(c)|
  }

  lemma LackingFalls(c: Cluster, d: Cluster)
    requires Kept(c, d)
    ensures Lacking(d) <= Lacking(c)
  {
    SubsetSize(NoNetwork(d), NoNetwork(c));
    SubsetSize(NoAddress(d), NoAddress(c));
  }

  /** States of an execution in which as much is missing look the same to a mesh computation. */
  lemma SameLackSameViews(c0: Cluster, c: Cluster, d: Cluster)
    requires SameSpecs(c0, c) && SameSpecs(c0, d) && Kept(c, d) && Lacking(c) == Lacking(d)
    ensures MeshFacts.SameViews(c.peers, d.peers) && MeshFacts.SameViews(d.peers, c.peers)
  {
    SubsetSize(NoNetwork(d), NoNetwork(c));
    SubsetSize(NoAddress(d), NoAddress(c));
    assert NoNetwork(d) == NoNetwork(c) && NoAddress(d) == NoAddress(c);
    forall i | 0 <= i < |c.peers| ensures MeshFacts.SameView(c.peers[i], d.peers[i]) {
      assert i in NoNetwork(c) <==> i in NoNetwork(d);
      assert i in NoAddress(c) <==> i in NoAddress(d);
    }
  }

  lemma KeptBetween(h: History, i: nat, j: nat)
    requires Execution(h) && i <= j < |h|
    ensures Kept(h[i], h[j]) && SameSpecs(h[0], h[i]) && SameSpecs(h[0], h[j])
  {
    hide Execution;
    var g: History := h[..j + 1];
    ExecutionPrefix(h, j + 1);
    ExecutionInv(g);
    StateKept(g, i);
    StateKept(g, j);
    assert g[i] == h[i] && g[j] == h[j] && Current(g) == h[j] && g[0] == h[0];
  }

  lemma StateKept(g: History, i: nat)
    requires AllInv(g) && i < |g|
    ensures Kept(g[i], Current(g)) && SameSpecs(g[0], g[i])
  {
    assert Inv(g[0], g[i]);
  }

  lemma SameMesh(h: History, a: nat, b: nat, p: Peer)
    requires Execution(h) && a < |h| && b < |h| && Lacking(h[a]) == Lacking(h[b])
    ensures Mesh(p, h[a].peers, h[0].bindings) == Mesh(p, h[b].peers, h[0].bindings)
  {
    var i, j := if a <= b then a else b, if a <= b then b else a;
    KeptBetween(h, i, j);
    SameLackSameViews(h[0], h[i], h[j]);
    MeshFacts.MeshCongruent(p, p, h[a].peers, h[b].peers, h[0].bindings);
  }

  // ---- Counting list writes ----

  ghost predicate ListChanged(c: Cluster, d: Cluster, x: nat) {
    x < |c.peers| && x < |d.peers| && c.peers[x].status.peers != d.peers[x].status.peers
  }

  /** How often the list of peer `x` was written. */
  ghost function ListWrites(h: History, x: nat): nat {
    if |h| <= 1 then 0
    else ListWrites(h[..|h| - 1], x) + if ListChanged(h[|h| - 2], h[|h| - 1], x) then 1 else 0
  }

  /** The list of `x` was computed over the peers of state `a`, and no state in which `x` was as it is now is older. */
  ghost predicate ComputedIn(h: History, x: nat, a: nat)
    requires h != [] && x < |Current(h).peers|
  {
    && a < |h|
    && Mesh(Current(h).peers[x], h[a].peers, h[0].bindings) == Ok(Current(h).peers[x].status.peers)
    && forall b: nat :: b < |h| && x < |h[b].peers| && h[b].peers[x] == Current(h).peers[x] ==>
        Lacking(h[b]) <= Lacking(h[a])
  }

  /** Each list write used up something that was missing when the one before was computed. */
  ghost predicate Justified(h: History, x: nat)
    requires h != [] && x < |Current(h).peers|
  {
    ListWrites(h, x) > 0 ==>
      && Current(h).peers[x].status.network != "" && Current(h).peers[x].status.address != ""
      && exists a: nat :: ComputedIn(h, x, a) && ListWrites(h, x) + Lacking(h[a]) + 1 <= 2 * |Current(h).peers|
  }

  lemma LessWithout(c: Cluster, x: nat)
    requires x < |c.peers| && c.peers[x].status.network != "" && c.peers[x].status.address != ""
    ensures Lacking(c) + 2 <= 2 * |c.peers|
  {
    var n := |c.peers|;
    BoundedSet(NoNetwork(c) + {x}, n);
    BoundedSet(NoAddress(c) + {x}, n);
  }

  /** An object that was just written was never there before. */
  lemma NeverBefore(h: History, i: nat, s: PeerStatus, b: nat)
    requires Sound(h) && i < |Current(h).peers| && b < |h| && i < |h[b].peers|
    ensures h[b].peers[i] != PutPeer(Current(h), i, s).peers[i]
  {
    assert Good(h[b]) && Later(h[b], Current(h));
    assert h[b].peers[i] in h[b].peers;
  }

  /** An unchanged peer stays justified. */
  lemma UnchangedJustified(h: History, g: History, x: nat)
    requires Execution(g) && |g| == |h| + 1 && h == g[..|h|] && h != []
    requires x < |Current(h).peers| && Justified(h, x)
    requires x < |Current(g).peers| && Current(g).peers[x] == Current(h).peers[x]
    ensures Justified(g, x)
  {
    hide Execution, Kept, Lacking, Mesh;
    assert h[|h| - 1] == g[|g| - 2];
    KeptBetween(g, |g| - 2, |g| - 1);
    if ListWrites(h, x) > 0 {
      var a: nat :| ComputedIn(h, x, a) && ListWrites(h, x) + Lacking(h[a]) + 1 <= 2 * |Current(h).peers|;
      LackingFalls(Current(h), Current(g));
      forall b: nat | b < |g| && x < |g[b].peers| && g[b].peers[x] == Current(g).peers[x]
        ensures Lacking(g[b]) <= Lacking(g[a])
      {
        var k := if b < |h| then b else |h| - 1;
        assert h[k].peers[x] == Current(h).peers[x] && g[a] == h[a];
      }
      assert ComputedIn(g, x, a);
    }
  }

  /** A list write whose peers were listed in state `a`, no older than the state `e` of the object. */
  lemma NewListLater(h: History, x: nat, e: nat, a: nat, s: PeerStatus)
    requires Execution(h) && x < |Current(h).peers| && Justified(h, x) && e <= a < |h|
    requires x < |h[e].peers| && h[e].peers[x] == Current(h).peers[x]
    requires Current(h).peers[x].status.network != "" && Current(h).peers[x].status.address != ""
    requires Mesh(Current(h).peers[x], h[a].peers, h[0].bindings) == Ok(s.peers)
    requires s.peers != Current(h).peers[x].status.peers
    ensures ListWrites(h, x) + 1 + Lacking(h[a]) + 1 <= 2 * |Current(h).peers|
  {
    hide Execution, Mesh, Lacking;
    KeptBetween(h, e, a);
    KeptBetween(h, a, |h| - 1);
    LackingFalls(h[e], h[a]);
    if ListWrites(h, x) == 0 {
      LessWithout(h[a], x);
    } else {
      var before: nat :| ComputedIn(h, x, before) &&
          ListWrites(h, x) + Lacking(h[before]) + 1 <= 2 * |Current(h).peers|;
      assert Lacking(h[e]) <= Lacking(h[before]);
      if Lacking(h[a]) == Lacking(h[before]) {
        SameMesh(h, a, before, Current(h).peers[x]);
      }
    }
  }

  lemma ListWriteLacks(c: Cluster, x: nat, s: PeerStatus)
    requires x < |c.peers| && s == c.peers[x].status.(peers := s.peers)
    ensures Lacking(PutPeer(c, x, s)) == Lacking(c)
  {
    assert NoNetwork(PutPeer(c, x, s)) == NoNetwork(c) && NoAddress(PutPeer(c, x, s)) == NoAddress(c);
  }

  lemma NewComputedIn(h: History, g: History, x: nat, a: nat, s: PeerStatus)
    requires |g| == |h| + 1 && h == g[..|h|] && h != [] && Sound(h)
    requires x < |Current(h).peers| && a < |h| && Lacking(Current(h)) <= Lacking(h[a])
    requires Mesh(Current(h).peers[x], h[a].peers, h[0].bindings) == Ok(s.peers)
    requires s == Current(h).peers[x].status.(peers := s.peers) && Current(g) == PutPeer(Current(h), x, s)
    ensures ComputedIn(g, x, a)
  {
    hide Lacking, Mesh, Sound;
    ListWriteLacks(Current(h), x, s);
    MeshFacts.MeshCongruent(Current(h).peers[x], Current(g).peers[x], h[a].peers, h[a].peers, h[0].bindings);
    forall b: nat | b < |g| && x < |g[b].peers| && g[b].peers[x] == Current(g).peers[x]
      ensures Lacking(g[b]) <= Lacking(g[a])
    {
      if b < |h| {
        NeverBefore(h, x, s, b);
        assert false;
      }
    }
  }

  /** The list write of a placed and addressed peer. */
  ghost predicate WritesList(h: History, x: nat, e: nat, a: nat, s: PeerStatus)
    requires h != []
  {
    && x < |Current(h).peers| && e <= a < |h|
    && x < |h[e].peers| && h[e].peers[x] == Current(h).peers[x]
    && Current(h).peers[x].status.network != "" && Current(h).peers[x].status.address != ""
    && Mesh(Current(h).peers[x], h[a].peers, h[0].bindings) == Ok(s.peers) &&
        s.peers != Current(h).peers[x].status.peers
    && s == Current(h).peers[x].status.(peers := s.peers)
  }

  lemma ListWritesStep(h: History, g: History, x: nat)
    requires |g| == |h| + 1 && h == g[..|h|] && h != []
    ensures ListWrites(g, x) == ListWrites(h, x) + if ListChanged(Current(h), Current(g), x) then 1 else 0
  {
    assert g[..|g| - 1] == h && g[|g| - 2] == Current(h);
  }

  lemma JustifiedBy(h: History, x: nat, a: nat)
    requires h != [] && x < |Current(h).peers| && ComputedIn(h, x, a)
    requires Current(h).peers[x].status.network != "" && Current(h).peers[x].status.address != ""
    requires ListWrites(h, x) + Lacking(h[a]) + 1 <= 2 * |Current(h).peers|
    ensures Justified(h, x)
  {
    hide ListWrites, Lacking, ComputedIn;
  }

  lemma ListJustified(h: History, g: History, x: nat, e: nat, a: nat, s: PeerStatus)
    requires Execution(h) && |g| == |h| + 1 && h == g[..|h|] && WritesList(h, x, e, a, s)
    requires Justified(h, x) && Current(g) == PutPeer(Current(h), x, s)
    ensures Justified(g, x)
  {
    hide Execution, Kept, Lacking, Mesh, Justified, ComputedIn;
    NewListLater(h, x, e, a, s);
    KeptBetween(h, a, |h| - 1);
    LackingFalls(h[a], Current(h));
    ExecutionSound(h);
    NewComputedIn(h, g, x, a, s);
    ListWritesStep(h, g, x);
    assert g[a] == h[a];
    JustifiedBy(g, x, a);
  }

  // ---- One more state ----

  /** What a reconcile that reads in order does to the list of peer `x`: nothing, or a list write of that peer. */
  lemma PeerStepCases(h: History, e: nat, a: nat, cache: Cluster, name: string, d: Cluster)
    returns (i: nat, s: PeerStatus)
    requires Execution(h) && e <= a && PeerReads(h, e, a, cache, name, d) && d != Current(h)
    ensures i < |Current(h).peers| && d == PutPeer(Current(h), i, s) && Shaped(Current(h).peers[i], cache.networks, s)
    ensures s != Current(h).peers[i].status
    ensures s.peers != Current(h).peers[i].status.peers ==> WritesList(h, i, e, a, s)
  {
    var c := Current(h);
    ExecutionSound(h);
    assert PastPeers(h, h[e].peers);
    PastTells(h, h[e].peers);
    i, s := PeerCommitAt(c, h[e].peers, cache, name);
    StatusShape(c.peers[i], cache, s);
    SamePeerAt(h, e, i);
    SameBindings(h, cache);
  }

  lemma ReadAt(c0: Cluster, c: Cluster, a: Cluster, i: nat)
    requires WellFormed(c0) && SameSpecs(c0, c) && SameSpecs(c0, a) && i < |c.peers| && c.peers[i] in a.peers
    ensures i < |a.peers| && a.peers[i] == c.peers[i]
  {
    SameSpecsNames(c0, a);
    var k: nat :| k < |a.peers| && a.peers[k] == c.peers[i];
    SamePlace(a.peers, i, k);
  }

  lemma SamePeerAt(h: History, e: nat, i: nat)
    requires Execution(h) && e < |h| && i < |Current(h).peers| && Current(h).peers[i] in h[e].peers
    ensures i < |h[e].peers| && h[e].peers[i] == Current(h).peers[i]
  {
    hide Execution, PeerTrue, EntryTrue;
    ReachableInv(h, e);
    ReachableInv(h, |h| - 1);
    ReadAt(h[0], Current(h), h[e], i);
  }

  lemma SameBindings(h: History, cache: Cluster)
    requires Execution(h) && FromPast(h, cache)
    ensures cache.bindings == h[0].bindings
  {
    var z: nat :| z < |h| && cache.bindings == h[z].bindings;
    ReachableInv(h, z);
  }

  lemma PeerStepJustified(h: History, g: History, x: nat, e: nat, a: nat, cache: Cluster, name: string)
    requires Execution(g) && Execution(h) && |g| == |h| + 1 && h == g[..|h|] && h != []
    requires e <= a && PeerReads(h, e, a, cache, name, Current(g))
    requires x < |Current(h).peers| && x < |Current(g).peers| && Justified(h, x)
    ensures Justified(g, x)
  {
    hide Execution, PeerReads;
    if Current(g) == Current(h) {
      UnchangedJustified(h, g, x);
    } else {
      var i, s := PeerStepCases(h, e, a, cache, name, Current(g));
      if i != x {
        UnchangedJustified(h, g, x);
      } else if s.peers != Current(h).peers[x].status.peers {
        ListJustified(h, g, x, e, a, s);
      } else {
        assert g[..|g| - 1] == h && g[|g| - 2] == Current(h);
      }
    }
  }

  lemma NetworkStepJustified(h: History, g: History, x: nat, cache: Cluster, name: string)
    requires Execution(g) && |g| == |h| + 1 && h == g[..|h|] && h != []
    requires Current(g) == NetworkStep(Current(h), cache, name)
    requires x < |Current(h).peers| && Justified(h, x)
    ensures x < |Current(g).peers| && Justified(g, x)
  {
    assert Current(g).peers == Current(h).peers;
    UnchangedJustified(h, g, x);
  }

  lemma LastInOrder(h: History)
    requires OrderedExecution(h) && |h| > 1
    ensures ReconciledInOrder(h[..|h| - 1], Current(h))
  {
  }

  lemma {:induction false} AllJustified(h: History, x: nat)
    requires OrderedExecution(h) && x < |h[0].peers|
    ensures |Current(h).peers| == |h[0].peers| && Justified(h, x)
    decreases |h|
  {
    if |h| > 1 {
      var init: History := h[..|h| - 1];
      OrderedPrefix(h, |h| - 1);
      AllJustified(init, x);
      OrderedIsExecution(init);
      OrderedIsExecution(h);
      KeptBetween(h, 0, |h| - 1);
      LastInOrder(h);
      InOrderJustified(init, h, x);
    }
  }

  lemma InOrderJustified(h: History, g: History, x: nat)
    requires Execution(g) && Execution(h) && |g| == |h| + 1 && h == g[..|h|] && ReconciledInOrder(h, Current(g))
    requires x < |Current(h).peers| && x < |Current(g).peers| && Justified(h, x)
    ensures Justified(g, x)
  {
    hide Execution, Justified;
    if e: nat, a: nat, cache, name: string :| e <= a && PeerReads(h, e, a, cache, name, Current(g)) {
      PeerStepJustified(h, g, x, e, a, cache, name);
    } else {
      var cache, name :| FromPast(h, cache) && Current(g) == NetworkStep(Current(h), cache, name);
      NetworkStepJustified(h, g, x, cache, name);
    }
  }

  /** In any ordered execution the list of a peer is written at most 2n-1 times. */
  lemma ListWritesBounded(h: History, x: nat)
    requires OrderedExecution(h) && x < |h[0].peers|
    ensures ListWrites(h, x) + 1 <= 2 * |h[0].peers|
  {
    AllJustified(h, x);
  }

  // ---- Counting all writes ----

  ghost function Writes(h: History): nat {
    if |h| <= 1 then 0 else Writes(h[..|h| - 1]) + if h[|h| - 1] != h[|h| - 2] then 1 else 0
  }

  /** List writes of the first `k` peers. */
  ghost function AllListWrites(h: History, k: nat): nat {
    if k == 0 then 0 else AllListWrites(h, k - 1) + ListWrites(h, k - 1)
  }

  lemma {:induction false} AllListWritesStep(h: History, g: History, k: nat)
    requires |g| == |h| + 1 && h == g[..|h|] && h != []
    ensures AllListWrites(h, k) <= AllListWrites(g, k)
    ensures (exists x: nat :: x < k && ListChanged(Current(h), Current(g), x)) ==>
        AllListWrites(h, k) < AllListWrites(g, k)
  {
    assert g[..|g| - 1] == h && g[|g| - 2] == Current(h);
    if k > 0 {
      AllListWritesStep(h, g, k - 1);
    }
  }

  /** Any write of a peer's network or address, and any network write, lowers what is missing. */
  lemma PeerPutMisses(c: Cluster, i: nat, networks: seq<Network>, s: PeerStatus)
    requires WellFormed(c) && i < |c.peers| && Shaped(c.peers[i], networks, s)
    requires forall n <- networks :: n.name != ""
    ensures Missing(PutPeer(c, i, s)) <= Missing(c)
    ensures s.peers == c.peers[i].status.peers && s != c.peers[i].status ==> Missing(PutPeer(c, i, s)) < Missing(c)
  {
    var d := PutPeer(c, i, s);
    EntriesStay(c, i, networks, s);
    SubsetSize(NoNetwork(d), NoNetwork(c));
    SubsetSize(NoEntry(d), NoEntry(c));
    SubsetSize(NoAddress(d), NoAddress(c));
    if s.network != c.peers[i].status.network {
      ChosenIsNamed(c.peers[i].meta, networks, s.network);
      assert i in NoNetwork(c) && i !in NoNetwork(d);
    } else if s.address != c.peers[i].status.address {
      assert i in NoAddress(c) && i !in NoAddress(d);
    }
  }

  lemma ChosenIsNamed(m: ObjectMeta, networks: seq<Network>, name: string)
    requires NetworkChoice.ChosenName(m, networks) == Some(name) && forall n <- networks :: n.name != ""
    ensures name != ""
  {
    NetworkChoice.ChosenNetworkGrants(m, networks);
  }

  lemma EntriesStay(c: Cluster, i: nat, networks: seq<Network>, s: PeerStatus)
    requires WellFormed(c) && i < |c.peers| && Shaped(c.peers[i], networks, s)
    ensures NoEntry(PutPeer(c, i, s)) <= NoEntry(c)
  {
    var d := PutPeer(c, i, s);
    NoEmptyName(c);
    forall k: nat | k < |c.peers| && HasEntry(c, k) ensures HasEntry(d, k) {
      assert d.peers[k].meta == c.peers[k].meta && d.peers[k].status.network == c.peers[k].status.network;
    }
  }

  /** An accepted network write gives an entry to some placed peer that had none. */
  lemma NetworkPutMisses(c0: Cluster, c: Cluster, old': Cluster, j: nat)
    requires Inv(c0, c) && Inv(c0, old') && Kept(old', c) && j < |c.networks| && Fresh(c.networks[j], old'.peers) != []
    ensures Missing(PutNetwork(c, j, NetworkStatus(NextAllocations(c.networks[j], old'.peers)))) < Missing(c)
  {
    var n, added := c.networks[j], Fresh(c.networks[j], old'.peers);
    var d := PutNetwork(c, j, NetworkStatus(NextAllocations(n, old'.peers)));
    SameSpecsNames(c0, c);
    var k := StaleEntryFills(c0, c, old', j);
    EntriesGrow(c, j, NetworkStatus(n.status.allocations + added), added);
    PositionUnique(NetworkNames(c.networks), j);
    FindAfterPut(c, j, d.networks[j].status, n.name);
    Allocations.NamesAppend(n.status.allocations, added);
    assert HasEntry(d, k) && !HasEntry(c, k);
    assert k in NoEntry(c) && k !in NoEntry(d);
    SubsetSize(NoEntry(d), NoEntry(c));
    assert NoNetwork(d) == NoNetwork(c) && NoAddress(d) == NoAddress(c);
  }

  lemma EntriesGrow(c: Cluster, j: nat, s: NetworkStatus, added: seq<IPAssignment>)
    requires j < |c.networks| && s.allocations == c.networks[j].status.allocations + added
    ensures NoEntry(PutNetwork(c, j, s)) <= NoEntry(c)
  {
    var d := PutNetwork(c, j, s);
    Allocations.NamesAppend(c.networks[j].status.allocations, added);
    forall i: nat | i < |c.peers| && HasEntry(c, i) ensures HasEntry(d, i) {
      FindAfterPut(c, j, s, c.peers[i].status.network);
    }
  }

  /** The first appended entry is for a peer that is in the network now and has no entry there. */
  lemma StaleEntryFills(c0: Cluster, c: Cluster, old': Cluster, j: nat) returns (k: nat)
    requires Inv(c0, c) && Inv(c0, old') && Kept(old', c) && j < |c.networks| && Fresh(c.networks[j], old'.peers) != []
    ensures k < |c.peers| && c.peers[k].status.network == c.networks[j].name
    ensures c.peers[k].meta.name == Fresh(c.networks[j], old'.peers)[0].name
    ensures c.peers[k].meta.name in AllocationNames(Fresh(c.networks[j], old'.peers))
    ensures c.peers[k].meta.name !in AllocationNames(c.networks[j].status.allocations)
  {
    hide AssignedAddress, PeerTrue, EntryTrue;
    var n, added := c.networks[j], Fresh(c.networks[j], old'.peers);
    Allocations.FreshExact(n, old'.peers, added[0]);
    var p :| p in old'.peers && Gains(n, p) &&
        added[0] == IPAssignment(p.meta.name, AssignedAddress(p.meta, n.spec.allocations).value);
    k :| k < |old'.peers| && old'.peers[k] == p;
    assert c0.networks[j] in c0.networks;
    assert c.peers[k].meta == p.meta && c.peers[k].status.network == n.name;
    assert AllocationNames(added)[0] == p.meta.name;
  }

  lemma StepCounts(h: History, d: Cluster)
    requires Execution(h) && ReconciledInOrder(h, d) && d != Current(h)
    ensures Missing(d) <= Missing(Current(h))
    ensures Missing(d) < Missing(Current(h)) || exists x: nat :: x < |h[0].peers| && ListChanged(Current(h), d, x)
  {
    var c := Current(h);
    ReachableInv(h, |h| - 1);
    SameSpecsNames(h[0], c);
    if e: nat, a: nat, cache, name: string :| e <= a && PeerReads(h, e, a, cache, name, d) {
      var i, s := PeerStepCases(h, e, a, cache, name, d);
      PastNamed(h, cache);
      PeerPutMisses(c, i, cache.networks, s);
      assert s.peers != c.peers[i].status.peers ==> ListChanged(c, d, i);
    } else {
      var cache, name :| FromPast(h, cache) && d == NetworkStep(c, cache, name);
      NetworkStepCounts(h, cache, name);
    }
  }

  lemma PastNamed(h: History, cache: Cluster)
    requires Execution(h) && FromPast(h, cache)
    ensures forall n <- cache.networks :: n.name != ""
  {
    var b :| 0 <= b < |h| && cache.networks == h[b].networks;
    ReachableInv(h, b);
    SameSpecsNames(h[0], h[b]);
  }

  lemma NetworkStepCounts(h: History, cache: Cluster, name: string)
    requires Execution(h) && FromPast(h, cache) && NetworkStep(Current(h), cache, name) != Current(h)
    ensures Missing(NetworkStep(Current(h), cache, name)) < Missing(Current(h))
  {
    var c := Current(h);
    ExecutionInv(h);
    ExecutionSound(h);
    var a, b := CacheIsTrue(h, cache);
    var j := NetworkCommitAt(c, cache, name);
    ReachableInv(h, |h| - 1);
    NetworkPutMisses(h[0], c, a, j);
  }

  lemma {:induction false} WritesCounted(h: History)
    requires OrderedExecution(h)
    ensures Writes(h) + Missing(Current(h)) <= Missing(h[0]) + AllListWrites(h, |h[0].peers|)
    decreases |h|
  {
    if |h| > 1 {
      var init: History := h[..|h| - 1];
      OrderedPrefix(h, |h| - 1);
      WritesCounted(init);
      OrderedIsExecution(init);
      LastInOrder(h);
      AllListWritesStep(init, h, |h[0].peers|);
      if Current(h) != Current(init) {
        StepCounts(init, Current(h));
      }
    }
  }

  lemma {:induction false} ListWritesSum(h: History, k: nat)
    requires OrderedExecution(h) && k <= |h[0].peers|
    ensures AllListWrites(h, k) + k <= Times(k, 2 * |h[0].peers|)
  {
    hide OrderedExecution;
    if k > 0 {
      ListWritesSum(h, k - 1);
      ListWritesBounded(h, k - 1);
    }
  }

  /** With old reads, n peers cause at most 2n(n+1) writes in any execution from empty statuses, as long as each
      reconcile lists peers no older than the object it read before. */
  lemma BoundedWrites(h: History)
    requires OrderedExecution(h)
    ensures var n := |h[0].peers|; Writes(h) <= 2 * n * (n + 1)
  {
    var n := |h[0].peers|;
    WritesCounted(h);
    ListWritesSum(h, n);
    TimesIs(n, 2 * n);
    BoundedSet(NoNetwork(h[0]), n);
    BoundedSet(NoEntry(h[0]), n);
    BoundedSet(NoAddress(h[0]), n);
    assert n * (2 * n) + 2 * n == 2 * n * (n + 1);
  }

  lemma AtomicInOrder(h: History, e: Event)
    requires h != []
    ensures ReconciledInOrder(h, Step(Current(h), e))
  {
    var c, k := Current(h), |h| - 1;
    assert FromPast(h, c) by {
      assert c == h[k];
    }
    if e.PeerEvent? {
      assert PeerReads(h, k, k, c, e.name, Step(c, e));
    }
  }

  lemma OrderedExtends(h: History, d: Cluster)
    requires OrderedExecution(h) && ReconciledInOrder(h, d)
    ensures OrderedExecution(h + [d])
  {
    var g: History := h + [d];
    forall k | 1 <= k < |g| ensures ReconciledInOrder(g[..k], g[k]) {
      assert g[..k] == h[..k];
      if k == |h| {
        assert h[..k] == h;
      }
    }
  }

  lemma {:induction false} RunWritesSnoc(c: Cluster, es: seq<Event>, e: Event)
    ensures Runs.Writes(c, es + [e]) == Runs.Writes(c, es) + if Step(Run(c, es), e) != Run(c, es) then 1 else 0
    decreases |es|
  {
    if es == [] {
      assert es + [e] == [e] && [e][1..] == [];
    } else {
      assert (es + [e])[1..] == es[1..] + [e];
      RunWritesSnoc(Step(c, es[0]), es[1..], e);
    }
  }

  lemma WritesSnoc(h: History, d: Cluster)
    requires h != []
    ensures Writes(h + [d]) == Writes(h) + if d != Current(h) then 1 else 0
  {
    assert (h + [d])[..|h|] == h;
  }

  lemma OrderedStart(c0: Cluster)
    requires Start(c0)
    ensures OrderedExecution([c0]) && Writes([c0]) == 0
  {
  }

  lemma RunSnoc(c0: Cluster, es: seq<Event>)
    requires es != []
    ensures var init, e := es[..|es| - 1], es[|es| - 1];
            && Run(c0, es) == Step(Run(c0, init), e)
            && Runs.Writes(c0, es) == Runs.Writes(c0, init) + if Run(c0, es) != Run(c0, init) then 1 else 0
  {
    var init, e := es[..|es| - 1], es[|es| - 1];
    assert es == init + [e];
    Divergence.RunSnoc(c0, init, e);
    RunWritesSnoc(c0, init, e);
  }

  /** Every run of reconciles that read the current state is such an execution, with the same writes. */
  lemma {:induction false} RunIsOrdered(c0: Cluster, es: seq<Event>) returns (h: History)
    requires Start(c0)
    ensures OrderedExecution(h) && h[0] == c0 && Current(h) == Run(c0, es) && Writes(h) == Runs.Writes(c0, es)
    decreases |es|
  {
    hide Step, Start, ReconciledInOrder;
    if es == [] {
      h := [c0];
      OrderedStart(c0);
    } else {
      var k := |es| - 1;
      var init := RunIsOrdered(c0, es[..k]);
      RunSnoc(c0, es);
      AtomicInOrder(init, es[k]);
      OrderedExtends(init, Run(c0, es));
      WritesSnoc(init, Run(c0, es));
      h := init + [Run(c0, es)];
    }
  }

  /** So from empty statuses, 2n(n+1) writes also bound every run of such reconciles. */
  lemma BoundedRunWrites(c0: Cluster, es: seq<Event>)
    requires Start(c0)
    ensures var n := |c0.peers|; Runs.Writes(c0, es) <= 2 * n * (n + 1)
  {
    var h := RunIsOrdered(c0, es);
    BoundedWrites(h);
  }
}
