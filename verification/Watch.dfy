/** Reconciles driven by watch events alone: a queue of requests, fed by the handlers of both controllers. */
module Watch {
  import opened Common
  import opened Text
  import opened Api
  import opened ApiServer
  import opened NetworkController
  import opened PeerController
  import opened Runs
  import opened Convergence
  import Divergence
  import Triggers

  /** A cluster with the requests that wait to be served; equal requests are merged. */
  datatype Watched = Watched(c: Cluster, pending: set<Event>)

  function NetworkRequests(p: Peer, networks: seq<Network>): set<Event> {
    set n <- MappedNetworks(p, networks) :: NetworkEvent(n)
  }

  function PeerRequests(network: string, peers: seq<Peer>): set<Event> {
    set x <- PeersIn(network, peers) :: PeerEvent(x)
  }

  /** What the write of a reconcile requests: the written object, and what the handlers map its old and new version
      to. */
  function Requests(c: Cluster, e: Event): set<Event> {
    match ChangeOf(c, e)
    case Nothing => {}
    case PeerChange(i, s) =>
      {PeerEvent(c.peers[i].meta.name)}
      + NetworkRequests(c.peers[i], c.networks)
      + NetworkRequests(c.peers[i].(status := s), c.networks)
    case NetworkChange(j) =>
      {NetworkEvent(c.networks[j].name)} + PeerRequests(c.networks[j].name, c.peers)
  }

  /** A written peer requests itself and the listed network it was or is in. */
  lemma PeerRequestsExact(c: Cluster, e: Event, i: nat, s: PeerStatus, x: string)
    requires ChangeOf(c, e) == PeerChange(i, s)
    ensures PeerEvent(x) in Requests(c, e) <==> x == c.peers[i].meta.name
    ensures NetworkEvent(x) in Requests(c, e) <==>
              x != "" && (x == c.peers[i].status.network || x == s.network) && exists n <- c.networks :: n.name == x
  {
    Triggers.MappedExact(c.peers[i], c.networks, x);
    Triggers.MappedExact(c.peers[i].(status := s), c.networks, x);
  }

  /** A written network requests itself and the peers that are in it. */
  lemma NetworkRequestsExact(c: Cluster, e: Event, j: nat, x: string)
    requires ChangeOf(c, e) == NetworkChange(j)
    ensures NetworkEvent(x) in Requests(c, e) <==> x == c.networks[j].name
    ensures PeerEvent(x) in Requests(c, e) <==>
              exists p <- c.peers :: p.status.network == c.networks[j].name && p.meta.name == x
  {
    Triggers.PeersInExact(c.networks[j].name, c.peers, x);
  }

  /** A reconcile that returns an error is retried. */
  function Retried(c: Cluster, e: Event): set<Event> {
    if e.PeerEvent? && PeerFails(c, c, e.name) then {e} else {}
  }

  /** One request is taken from the queue and served. */
  function Serve(w: Watched, e: Event): Watched {
    Watched(Step(w.c, e), w.pending - {e} + Requests(w.c, e) + Retried(w.c, e))
  }

  ghost predicate Served(w: Watched, es: seq<Event>, v: Watched)
    decreases |es|
  {
    if es == [] then v == w else es[0] in w.pending && Served(Serve(w, es[0]), es[1..], v)
  }

  /** When the controllers start, every object is announced. */
  function Started(c: Cluster): Watched {
    Watched(c, (set p <- c.peers :: PeerEvent(p.meta.name)) + (set n <- c.networks :: NetworkEvent(n.name)))
  }

  /** Serving the requests `es` one after the other leads from a start of `c` to `v`. */
  ghost predicate Reached(c: Cluster, es: seq<Event>, v: Watched) {
    Served(Started(c), es, v)
  }

  // ---- Networks and addresses settle ----

  /** The request that a peer must still wait for, if it is not placed, allocated and addressed yet. */
  ghost function Owed(c0: Cluster, c: Cluster, x: nat): Option<Event>
    requires SameSpecs(c0, c) && x < |c.peers|
  {
    var p, home := c.peers[x], HomeName(c0, c.peers[x].meta);
    if p.status.network != home then Some(PeerEvent(p.meta.name))
    else if home == "" then None
    else if !HasEntry(c, x) then Some(NetworkEvent(home))
    else if p.status.address != HomeAddress(c0, p.meta) then Some(PeerEvent(p.meta.name))
    else None
  }

  ghost predicate WatchInv(c0: Cluster, w: Watched) {
    && Inv(c0, w.c)
    && forall x: nat :: x < |w.c.peers| ==> Owed(c0, w.c, x).Some? ==> Owed(c0, w.c, x).value in w.pending
  }

  lemma HomeListed(c0: Cluster, c: Cluster, x: nat)
    requires Inv(c0, c) && x < |c.peers| && c.peers[x].status.network != ""
    ensures NetworkEvent(c.peers[x].status.network) in NetworkRequests(c.peers[x], c.networks)
  {
    assert PeerTrue(c0, c.peers[x]);
    var j := HomeGrants(c0, c.peers[x].meta);
    assert c.networks[j] in c.networks;
    Triggers.MappedExact(c.peers[x], c.networks, c.peers[x].status.network);
  }

  /** A served peer request leaves its own peer nothing that it would have to ask for again. */
  lemma PeerServed(c0: Cluster, c: Cluster, x: nat)
    requires Inv(c0, c) && x < |c.peers|
    requires Step(c, PeerEvent(c.peers[x].meta.name)) == c
    ensures Owed(c0, c, x) != Some(PeerEvent(c.peers[x].meta.name))
  {
    var p := c.peers[x];
    Places1(c0, c, x);
    if p.status.network != "" && HasEntry(c, x) && p.status.address != HomeAddress(c0, p.meta) {
      assert PeerTrue(c0, p);
      Divergence.GetsAddress(c0, c, x);
    }
  }

  lemma NetworkServed(c0: Cluster, c: Cluster, x: nat, name: string)
    requires Inv(c0, c) && x < |c.peers| && Step(c, NetworkEvent(name)) == c
    ensures Owed(c0, c, x) != Some(NetworkEvent(name))
  {
    if Owed(c0, c, x) == Some(NetworkEvent(name)) {
      var j := HomeGrants(c0, c.peers[x].meta);
      GetsEntry(c0, c, x, j);
      SameSpecsNames(c0, c);
      PositionUnique(NetworkNames(c.networks), j);
    }
  }

  lemma QuietServe(c0: Cluster, w: Watched, e: Event, x: nat)
    requires WatchInv(c0, w) && x < |w.c.peers| && Step(w.c, e) == w.c
    ensures Owed(c0, w.c, x).Some? ==> Owed(c0, w.c, x).value in w.pending - {e}
  {
    match e
    case PeerEvent(name) =>
      if name == w.c.peers[x].meta.name {
        PeerServed(c0, w.c, x);
      }
    case NetworkEvent(name) =>
      NetworkServed(c0, w.c, x, name);
  }

  lemma {:induction false} MappedSame(p: Peer, q: Peer, networks: seq<Network>)
    requires p.status.network == q.status.network
    ensures MappedNetworks(p, networks) == MappedNetworks(q, networks)
  {
    if networks != [] {
      MappedSame(p, q, networks[..|networks| - 1]);
    }
  }

  lemma OwedKinds(c0: Cluster, c: Cluster, x: nat)
    requires SameSpecs(c0, c) && x < |c.peers|
    ensures var f := Owed(c0, c, x);
            || f == None
            || f == Some(PeerEvent(c.peers[x].meta.name))
            || (f == Some(NetworkEvent(c.peers[x].status.network)) && c.peers[x].status.network != "")
  {
  }

  lemma OwedSame(c0: Cluster, c: Cluster, d: Cluster, x: nat)
    requires SameSpecs(c0, c) && SameSpecs(c0, d) && x < |c.peers| && x < |d.peers|
    requires c.peers[x] == d.peers[x] && HasEntry(c, x) == HasEntry(d, x)
    ensures Owed(c0, c, x) == Owed(c0, d, x)
  {
  }

  /** A written peer is requested, and so is the network it is in now. */
  lemma PeerWriteRequests(c0: Cluster, c: Cluster, e: Event, i: nat, s: PeerStatus)
    requires Inv(c0, c) && ChangeOf(c, e) == PeerChange(i, s) && Inv(c0, PutPeer(c, i, s))
    ensures PeerEvent(c.peers[i].meta.name) in Requests(c, e)
    ensures s.network != "" ==> NetworkEvent(s.network) in Requests(c, e)
  {
    var d := PutPeer(c, i, s);
    if s.network != "" {
      HomeListed(c0, d, i);
      MappedSame(d.peers[i], c.peers[i].(status := s), c.networks);
    }
  }

  lemma OtherPeerOwes(c0: Cluster, w: Watched, e: Event, i: nat, s: PeerStatus, x: nat)
    requires WatchInv(c0, w) && ChangeOf(w.c, e) == PeerChange(i, s) && x < |w.c.peers| && x != i
    requires Inv(c0, PutPeer(w.c, i, s))
    ensures Owed(c0, PutPeer(w.c, i, s), x).Some? ==> Owed(c0, PutPeer(w.c, i, s), x).value in w.pending - {e}
  {
    var c := w.c;
    OwedSame(c0, c, PutPeer(c, i, s), x);
    OwedKinds(c0, c, x);
    SameSpecsNames(c0, c);
    assert PeerNames(c.peers)[i] != PeerNames(c.peers)[x];
  }

  lemma PeerWriteOwes(c0: Cluster, w: Watched, e: Event, i: nat, s: PeerStatus, x: nat)
    requires WatchInv(c0, w) && ChangeOf(w.c, e) == PeerChange(i, s) && x < |w.c.peers|
    requires Inv(c0, PutPeer(w.c, i, s))
    ensures Owed(c0, PutPeer(w.c, i, s), x).Some? ==>
              Owed(c0, PutPeer(w.c, i, s), x).value in w.pending - {e} + Requests(w.c, e)
  {
    if x == i {
      PeerWriteRequests(c0, w.c, e, i, s);
      OwedKinds(c0, PutPeer(w.c, i, s), x);
    } else {
      OtherPeerOwes(c0, w, e, i, s, x);
    }
  }

  lemma ServedNetworkOwes(c0: Cluster, w: Watched, e: Event, j: nat, d: Cluster, x: nat)
    requires WatchInv(c0, w) && ChangeOf(w.c, e) == NetworkChange(j) && d == Apply(w.c, NetworkChange(j)) && Inv(c0, d)
    requires x < |w.c.peers| && w.c.peers[x].status.network == w.c.networks[j].name
    ensures Owed(c0, d, x).Some? ==> Owed(c0, d, x).value in Requests(w.c, e)
  {
    var c := w.c;
    StepIs(c, e);
    GetsEntry(c0, c, x, j);
    SameSpecsNames(c0, d);
    PositionUnique(NetworkNames(d.networks), j);
    assert HasEntry(d, x);
    OwedKinds(c0, d, x);
    Triggers.PeersInExact(c.networks[j].name, c.peers, c.peers[x].meta.name);
    assert c.peers[x] in c.peers;
  }

  lemma OtherNetworkOwes(c0: Cluster, w: Watched, e: Event, j: nat, d: Cluster, x: nat)
    requires WatchInv(c0, w) && ChangeOf(w.c, e) == NetworkChange(j) && d == Apply(w.c, NetworkChange(j)) && Inv(c0, d)
    requires x < |w.c.peers| && w.c.peers[x].status.network != w.c.networks[j].name
    ensures Owed(c0, d, x).Some? ==> Owed(c0, d, x).value in w.pending - {e}
  {
    hide AssignedAddress, PeerTrue, EntryTrue;
    var c := w.c;
    FindAfterPut(c, j, d.networks[j].status, c.peers[x].status.network);
    assert HasEntry(d, x) == HasEntry(c, x);
    OwedSame(c0, c, d, x);
    OwedKinds(c0, c, x);
  }

  lemma ServeInv(c0: Cluster, w: Watched, e: Event)
    requires WatchInv(c0, w)
    ensures WatchInv(c0, Serve(w, e))
  {
    var d := Step(w.c, e);
    StepIs(w.c, e);
    StepInv(c0, w.c, e);
    forall x: nat | x < |d.peers| && Owed(c0, d, x).Some? ensures Owed(c0, d, x).value in Serve(w, e).pending {
      match ChangeOf(w.c, e)
      case Nothing => QuietServe(c0, w, e, x);
      case PeerChange(i, s) => PeerWriteOwes(c0, w, e, i, s, x);
      case NetworkChange(j) =>
        if w.c.peers[x].status.network == w.c.networks[j].name {
          ServedNetworkOwes(c0, w, e, j, d, x);
        } else {
          OtherNetworkOwes(c0, w, e, j, d, x);
        }
    }
  }

  lemma {:induction false} ServedInv(c0: Cluster, w: Watched, es: seq<Event>, v: Watched)
    requires WatchInv(c0, w) && Served(w, es, v)
    ensures WatchInv(c0, v)
    decreases |es|
  {
    if es != [] {
      ServeInv(c0, w, es[0]);
      ServedInv(c0, Serve(w, es[0]), es[1..], v);
    }
  }

  lemma StartedInv(c0: Cluster)
    requires Pristine(c0)
    ensures WatchInv(c0, Started(c0))
  {
    PristineInv(c0);
    forall x: nat | x < |c0.peers| && Owed(c0, c0, x).Some? ensures Owed(c0, c0, x).value in Started(c0).pending {
      var p := c0.peers[x];
      assert p in c0.peers && PeerEvent(p.meta.name) in Started(c0).pending;
    }
  }

  /** No waiting request would change anything. */
  ghost predicate Idle(w: Watched) {
    forall e <- w.pending :: Step(w.c, e) == w.c
  }

  lemma IdleOwesNothing(c0: Cluster, w: Watched, x: nat)
    requires WatchInv(c0, w) && Idle(w) && x < |w.c.peers|
    ensures Owed(c0, w.c, x) == None
  {
    if Owed(c0, w.c, x).Some? {
      QuietServe(c0, w, Owed(c0, w.c, x).value, x);
    }
  }

  lemma NothingOwed(c0: Cluster, c: Cluster, x: nat)
    requires Inv(c0, c) && x < |c.peers| && Owed(c0, c, x) == None
    ensures Done(c0, c, 1, x) && Done(c0, c, 3, x)
    ensures HomeName(c0, c0.peers[x].meta) != "" ==> HasEntry(c, x)
  {
    assert PeerTrue(c0, c.peers[x]);
    if HomeName(c0, c0.peers[x].meta) == "" {
      NoHomeNoAddress(c0, c0.peers[x].meta);
    }
  }

  lemma NothingOwedAllocated(c0: Cluster, c: Cluster, j: nat)
    requires Inv(c0, c) && j < |c.networks|
    requires forall x: nat :: x < |c.peers| ==> Owed(c0, c, x) == None
    ensures Done(c0, c, 2, j)
  {
    SameSpecsNames(c0, c);
    PositionUnique(NetworkNames(c.networks), j);
    assert c0.networks[j] in c0.networks;
    forall i: nat | i < |c.peers| && HomeName(c0, c0.peers[i].meta) == c.networks[j].name
      ensures c.peers[i].meta.name in AllocationNames(c.networks[j].status.allocations)
    {
      NothingOwed(c0, c, i);
    }
  }

  lemma DrainedIsDone(c0: Cluster, c: Cluster)
    requires Inv(c0, c) && forall x: nat :: x < |c.peers| ==> Owed(c0, c, x) == None
    ensures DoneBefore(c0, c, 4)
  {
    forall r: nat, x: nat | r < 4 ensures Done(c0, c, r, x) {
      if r == 2 && x < |c.networks| {
        NothingOwedAllocated(c0, c, x);
      } else if x < |c.peers| {
        NothingOwed(c0, c, x);
      }
    }
  }

  lemma FinalIsDone(c0: Cluster, c: Cluster)
    requires Inv(c0, c) && DoneBefore(c0, c, 4) && Final(c0, c)
    ensures DoneBefore(c0, c, 5)
  {
    forall r: nat | r < 5 ensures AllDone(c0, c, r) {
      if r == 4 {
        forall x: nat ensures Done(c0, c, 4, x) {
        }
      }
    }
  }

  lemma IdleIsDone(c0: Cluster, es: seq<Event>, v: Watched)
    requires Pristine(c0) && Reached(c0, es, v) && Idle(v)
    ensures Inv(c0, v.c) && DoneBefore(c0, v.c, 4)
  {
    StartedInv(c0);
    ServedInv(c0, Started(c0), es, v);
    forall x: nat | x < |v.c.peers| ensures Owed(c0, v.c, x) == None {
      IdleOwesNothing(c0, v, x);
    }
    DrainedIsDone(c0, v.c);
  }

  /** Watch events alone settle networks, addresses and allocations: once no waiting request would change anything,
      these are the closed form of the specs, even where failing reconciles keep being retried. The cluster is then at
      rest exactly when the peer lists are the final ones too. */
  lemma WatchEventsSettle(c0: Cluster, es: seq<Event>, v: Watched)
    requires Pristine(c0) && Reached(c0, es, v) && Idle(v)
    ensures SameSpecs(c0, v.c) && Settled(c0, v.c)
    ensures Quiescent(v.c) <==> Final(c0, v.c)
  {
    IdleIsDone(c0, es, v);
    DoneIsSettled(c0, v.c);
    if Quiescent(v.c) {
      RestIsDone(c0, v.c);
      DoneIsFinal(c0, v.c);
    }
    if Final(c0, v.c) {
      FinalIsDone(c0, v.c);
      DoneRests(c0, v.c);
    }
  }

  // ---- The queue runs empty ----

  ghost predicate AllSplit(c: Cluster) {
    forall p <- c.peers :: Splits(p.spec.endpoint)
  }

  /** Every peer that ends up with an address has an endpoint that splits. */
  ghost predicate HomesSplit(c0: Cluster) {
    forall p <- c0.peers :: HomeAddress(c0, p.meta) != "" ==> Splits(p.spec.endpoint)
  }

  /** No reconcile of a peer will ever fail: all endpoints split, or at least those of all peers that can be
      addressed. */
  ghost predicate Calm(c0: Cluster, c: Cluster) {
    WellFormed(c) && (AllSplit(c) || (Inv(c0, c) && HomesSplit(c0)))
  }

  lemma AddressedSplits(c0: Cluster, c: Cluster, p: Peer)
    requires Calm(c0, c) && p in c.peers && p.status.address != ""
    ensures Splits(p.spec.endpoint)
  {
    if !AllSplit(c) {
      var i: nat :| i < |c.peers| && c.peers[i] == p;
      assert PeerTrue(c0, p) && c0.peers[i] in c0.peers;
    }
  }

  lemma NothingRetried(c0: Cluster, c: Cluster, e: Event)
    requires Calm(c0, c)
    ensures Retried(c, e) == {}
  {
    hide Calm, Splits;
    if e.PeerEvent? && FindPeer(c.peers, e.name).Some? {
      var p := FindPeer(c.peers, e.name).value;
      assert p in c.peers;
      if p.status.address != "" {
        AddressedSplits(c0, c, p);
        forall q | q in c.peers && Neighbour(p, q) ensures Splits(q.spec.endpoint) {
          AddressedSplits(c0, c, q);
        }
      }
    }
  }

  lemma FewNetworkRequests(p: Peer, networks: seq<Network>)
    ensures |NetworkRequests(p, networks)| <= 1
  {
    forall e | e in NetworkRequests(p, networks) ensures e == NetworkEvent(p.status.network) {
      var n :| n in MappedNetworks(p, networks) && e == NetworkEvent(n);
      Triggers.MappedExact(p, networks, n);
    }
    SmallSet(NetworkRequests(p, networks), {NetworkEvent(p.status.network)});
  }

  lemma SmallSet(s: set<Event>, t: set<Event>)
    requires s <= t
    ensures |s| <= |t|
  {
    assert t == s + (t - s);
  }

  lemma {:induction false} FewPeerRequests(network: string, peers: seq<Peer>)
    ensures |PeerRequests(network, peers)| <= |peers|
  {
    if peers != [] {
      var p, init := peers[|peers| - 1], peers[..|peers| - 1];
      FewPeerRequests(network, init);
      var more := PeerRequests(network, init) + {PeerEvent(p.meta.name)};
      SmallSet(PeerRequests(network, peers), more);
    }
  }

  lemma FewRequests(c: Cluster, e: Event)
    ensures |Requests(c, e)| <= |c.peers| + 3
    ensures Step(c, e) == c ==> Requests(c, e) == {}
  {
    StepIs(c, e);
    match ChangeOf(c, e)
    case Nothing =>
    case PeerChange(i, s) =>
      FewNetworkRequests(c.peers[i], c.networks);
      FewNetworkRequests(c.peers[i].(status := s), c.networks);
    case NetworkChange(j) =>
      FewPeerRequests(c.networks[j].name, c.peers);
  }

  /** Requests that wait, and those that writes can still cause. */
  ghost function Work(w: Watched): nat {
    |w.pending| + Times(Measure(w.c), |w.c.peers| + 3)
  }

  lemma CalmKept(c0: Cluster, c: Cluster, e: Event)
    requires Calm(c0, c)
    ensures Calm(c0, Step(c, e)) && |Step(c, e).peers| == |c.peers|
  {
    StepKeepsSpecs(c, e);
    SameSpecsNames(c, Step(c, e));
    if AllSplit(c) {
      SplitKept(c, Step(c, e));
    } else {
      StepInv(c0, c, e);
    }
  }

  lemma ServeShrinks(c0: Cluster, w: Watched, e: Event)
    requires Calm(c0, w.c) && e in w.pending
    ensures Work(Serve(w, e)) < Work(w)
    ensures Calm(c0, Serve(w, e).c)
  {
    var c, d, k := w.c, Step(w.c, e), |w.c.peers| + 3;
    CalmKept(c0, c, e);
    NothingRetried(c0, c, e);
    FewRequests(c, e);
    var rest := w.pending - {e};
    assert |rest| == |w.pending| - 1;
    assert |rest + Requests(c, e)| <= |rest| + |Requests(c, e)|;
    if d != c {
      WriteDecreases(c, e);
      TimesGrows(Measure(c), Measure(d), k);
    }
  }

  lemma SplitKept(c: Cluster, d: Cluster)
    requires SameSpecs(c, d) && AllSplit(c)
    ensures AllSplit(d)
  {
    forall p | p in d.peers ensures Splits(p.spec.endpoint) {
      var i :| 0 <= i < |d.peers| && d.peers[i] == p;
      assert c.peers[i] in c.peers;
    }
  }

  lemma {:induction false} ServedShrinks(c0: Cluster, w: Watched, es: seq<Event>, v: Watched)
    requires Calm(c0, w.c) && Served(w, es, v)
    ensures |es| + Work(v) <= Work(w)
    decreases |es|
  {
    if es != [] {
      ServeShrinks(c0, w, es[0]);
      ServedShrinks(c0, Serve(w, es[0]), es[1..], v);
    }
  }

  lemma {:induction false} FewPeers(peers: seq<Peer>)
    ensures |set p <- peers :: PeerEvent(p.meta.name)| <= |peers|
  {
    if peers != [] {
      var p, init := peers[|peers| - 1], peers[..|peers| - 1];
      FewPeers(init);
      var fewer := set q <- init :: PeerEvent(q.meta.name);
      SmallSet(set q <- peers :: PeerEvent(q.meta.name), fewer + {PeerEvent(p.meta.name)});
    }
  }

  lemma {:induction false} FewNetworks(networks: seq<Network>)
    ensures |set n <- networks :: NetworkEvent(n.name)| <= |networks|
  {
    if networks != [] {
      var n, init := networks[|networks| - 1], networks[..|networks| - 1];
      FewNetworks(init);
      var fewer := set m <- init :: NetworkEvent(m.name);
      SmallSet(set m <- networks :: NetworkEvent(m.name), fewer + {NetworkEvent(n.name)});
    }
  }

  /** For n peers and m networks. */
  ghost function MaxServed(n: nat, m: nat): nat {
    n + m + (3 * n * (n + 1) + n) * (n + 3)
  }

  lemma StartedRequests(c0: Cluster)
    ensures |Started(c0).pending| <= |c0.peers| + |c0.networks|
  {
    var a, b := set p <- c0.peers :: PeerEvent(p.meta.name), set n <- c0.networks :: NetworkEvent(n.name);
    FewPeers(c0.peers);
    FewNetworks(c0.networks);
    assert Started(c0).pending == a + b && |a + b| <= |a| + |b|;
  }

  lemma StartedWork(c0: Cluster)
    ensures Work(Started(c0)) <= MaxServed(|c0.peers|, |c0.networks|)
  {
    hide Measure;
    var n := |c0.peers|;
    StartedRequests(c0);
    MeasureBound(c0);
    TimesIs(Measure(c0), n + 3);
    MulMono(Measure(c0), 3 * n * (n + 1) + n, n + 3);
  }

  /** If every endpoint splits, n peers and m networks let at most n + m + (3n(n+1)+n)(n+3) requests be served after a
      start, in whatever order: then the queue is empty. */
  lemma QueueRunsEmpty(c0: Cluster, es: seq<Event>, v: Watched)
    requires WellFormed(c0) && AllSplit(c0) && Reached(c0, es, v)
    ensures |es| + |v.pending| <= MaxServed(|c0.peers|, |c0.networks|)
  {
    ServedShrinks(c0, Started(c0), es, v);
    StartedWork(c0);
  }

  lemma {:induction false} ServedAppend(w: Watched, es: seq<Event>, v: Watched, fs: seq<Event>, u: Watched)
    requires Served(w, es, v) && Served(v, fs, u)
    ensures Served(w, es + fs, u)
    decreases |es|
  {
    hide Serve;
    if es == [] {
      assert es + fs == fs;
    } else {
      assert (es + fs)[1..] == es[1..] + fs;
      ServedAppend(Serve(w, es[0]), es[1..], v, fs, u);
    }
  }

  lemma ServedOne(w: Watched, e: Event)
    requires e in w.pending
    ensures Served(w, [e], Serve(w, e))
  {
    hide Serve;
    assert [e][1..] == [];
    assert Served(Serve(w, e), [], Serve(w, e));
  }

  /** Serving the head first. */
  lemma ServedCons(w: Watched, e: Event, es: seq<Event>, v: Watched)
    requires e in w.pending && Served(Serve(w, e), es, v)
    ensures Served(w, [e] + es, v)
  {
    hide Serve;
    assert ([e] + es)[1..] == es;
  }

  /** Where no reconcile fails, every order of service can be continued until the queue is empty. */
  lemma {:induction false} Drain(c0: Cluster, w: Watched) returns (es: seq<Event>, v: Watched)
    requires Calm(c0, w.c)
    ensures Served(w, es, v) && v.pending == {}
    ensures Idle(w) ==> v.c == w.c
    decreases Work(w)
  {
    if w.pending == {} {
      es, v := [], w;
    } else {
      var e :| e in w.pending;
      ServeShrinks(c0, w, e);
      IdleServe(c0, w, e);
      var rest;
      rest, v := Drain(c0, Serve(w, e));
      ServedCons(w, e, rest, v);
      es := [e] + rest;
    }
  }

  lemma IdleServe(c0: Cluster, w: Watched, e: Event)
    requires Calm(c0, w.c) && e in w.pending
    ensures Idle(w) ==> Serve(w, e).c == w.c && Idle(Serve(w, e))
  {
    if Idle(w) {
      FewRequests(w.c, e);
      NothingRetried(c0, w.c, e);
    }
  }

  // ---- The queue that never empties ----

  /** Peer `r` ends up with an address but has an endpoint that does not split. */
  ghost predicate Failing(c0: Cluster, r: nat) {
    r < |c0.peers| && HomeAddress(c0, c0.peers[r].meta) != "" && !Splits(c0.peers[r].spec.endpoint)
  }

  /** Once the peer is addressed, its request never leaves the queue. */
  ghost predicate Haunted(c0: Cluster, w: Watched, r: nat) {
    && WatchInv(c0, w) && r < |w.c.peers|
    && (w.c.peers[r].status.address != "" ==> PeerEvent(w.c.peers[r].meta.name) in w.pending)
  }

  lemma AddressedFails(c0: Cluster, c: Cluster, r: nat)
    requires Inv(c0, c) && Failing(c0, r) && c.peers[r].status.address != ""
    ensures NextStatus(c.peers[r], c) == Err
    ensures FindPeer(c.peers, c.peers[r].meta.name) == Some(c.peers[r])
  {
    var p := c.peers[r];
    assert PeerTrue(c0, p);
    var j := HomeGrants(c0, p.meta);
    NetworkOfHome(c0, c, j, p.meta);
    SameSpecsNames(c0, c);
    PositionUnique(PeerNames(c.peers), r);
  }

  lemma HauntedServe(c0: Cluster, w: Watched, e: Event, r: nat)
    requires Haunted(c0, w, r) && Failing(c0, r)
    ensures Haunted(c0, Serve(w, e), r)
  {
    var c, d := w.c, Step(w.c, e);
    ServeInv(c0, w, e);
    StepIs(c, e);
    if c.peers[r].status.address != "" {
      AddressedFails(c0, c, r);
    }
  }

  lemma {:induction false} HauntedServed(c0: Cluster, w: Watched, es: seq<Event>, v: Watched, r: nat)
    requires Haunted(c0, w, r) && Failing(c0, r) && Served(w, es, v)
    ensures Haunted(c0, v, r)
    decreases |es|
  {
    if es != [] {
      HauntedServe(c0, w, es[0], r);
      HauntedServed(c0, Serve(w, es[0]), es[1..], v, r);
    }
  }

  /** A peer that can be addressed but has no splittable endpoint keeps the queue from ever running empty. */
  lemma NeverEmpties(c0: Cluster, es: seq<Event>, v: Watched, r: nat)
    requires Pristine(c0) && Failing(c0, r) && Reached(c0, es, v)
    ensures v.pending != {}
  {
    StartedInv(c0);
    assert c0.peers[r] in c0.peers;
    HauntedServed(c0, Started(c0), es, v, r);
    if v.pending == {} {
      IdleOwesNothing(c0, v, r);
      NothingOwed(c0, v.c, r);
    }
  }

  /** If every peer that gets an address has an endpoint that splits, the same bound holds from empty statuses. */
  lemma HomesSplitRunsEmpty(c0: Cluster, es: seq<Event>, v: Watched)
    requires Pristine(c0) && HomesSplit(c0) && Reached(c0, es, v)
    ensures |es| + |v.pending| <= MaxServed(|c0.peers|, |c0.networks|)
  {
    PristineInv(c0);
    ServedShrinks(c0, Started(c0), es, v);
    StartedWork(c0);
  }

  lemma NotHomesSplitNeverEmpties(c0: Cluster, es: seq<Event>, v: Watched)
    requires Pristine(c0) && !HomesSplit(c0) && Reached(c0, es, v)
    ensures v.pending != {}
  {
    var p :| p in c0.peers && HomeAddress(c0, p.meta) != "" && !Splits(p.spec.endpoint);
    var r: nat :| r < |c0.peers| && c0.peers[r] == p;
    NeverEmpties(c0, es, v, r);
  }

  lemma CalmStart(c0: Cluster)
    requires Pristine(c0) && HomesSplit(c0)
    ensures Calm(c0, Started(c0).c)
  {
    PristineInv(c0);
  }

  lemma SplitEmpties(c0: Cluster) returns (es: seq<Event>, v: Watched)
    requires Pristine(c0) && HomesSplit(c0)
    ensures Reached(c0, es, v) && v.pending == {}
  {
    CalmStart(c0);
    es, v := Drain(c0, Started(c0));
  }

  /** From empty statuses the queue can run empty exactly when every peer that gets an address has an endpoint that
      splits. */
  lemma QueueEmptiesExact(c0: Cluster)
    requires Pristine(c0)
    ensures HomesSplit(c0) <==> exists es, v :: Reached(c0, es, v) && v.pending == {}
  {
    hide HomesSplit, Pristine, Reached;
    if HomesSplit(c0) {
      var es, v := SplitEmpties(c0);
    } else {
      forall es, v | Reached(c0, es, v) ensures v.pending != {} {
        NotHomesSplitNeverEmpties(c0, es, v);
      }
    }
  }
}
