/** Safety when reconciles read old lists and only their write is checked against the current version. */
module StaleReads {
  import opened Common
  import opened Api
  import opened ApiServer
  import opened NetworkController
  import opened PeerController
  import opened Allocations
  import opened Runs
  import Convergence
  import NetworkChoice

  /** A history lists every state so far; the last one is current. */
  type History = seq<Cluster>

  function Current(h: History): Cluster
    requires h != []
  {
    h[|h| - 1]
  }

  /** A list of peers that was true at some time. */
  ghost predicate PastPeers(h: History, peers: seq<Peer>) {
    exists a :: 0 <= a < |h| && peers == h[a].peers
  }

  /** A cache whose lists were each true at some time, not necessarily the same time. */
  ghost predicate FromPast(h: History, cache: Cluster) {
    && PastPeers(h, cache.peers)
    && (exists b :: 0 <= b < |h| && cache.networks == h[b].networks)
    && (exists d :: 0 <= d < |h| && cache.bindings == h[d].bindings)
  }

  /** Users create, change and delete peers and bindings, and create and change networks; statuses are out of their
      reach, a new object starts with an empty one, and whatever is written gets a fresh version. */
  ghost predicate UserChange(c: Cluster, d: Cluster) {
    && WellFormed(d)
    && d.clock > c.clock
    && (forall q <- d.peers :: q in c.peers || (q.version == d.clock && UserPeer(c, q)))
    && (forall n <- d.networks :: n in c.networks || (n.version == d.clock && UserNetwork(c, n)))
    && (forall n <- c.networks :: n.name in NetworkNames(d.networks))
  }

  ghost predicate UserPeer(c: Cluster, q: Peer) {
    q.status == EMPTY_STATUS || exists p <- c.peers :: p.meta.name == q.meta.name && p.status == q.status
  }

  ghost predicate UserNetwork(c: Cluster, n: Network) {
    if n.name in NetworkNames(c.networks) then exists m <- c.networks :: m.name == n.name && m.status == n.status
    else n.status.allocations == []
  }

  /** One more state: a reconcile of either controller with stale reads, or a user's change. */
  ghost predicate Next(h: History, d: Cluster)
    requires h != []
  {
    || (exists seen, cache, name: string ::
          PastPeers(h, seen) && FromPast(h, cache) && d == PeerStepFrom(Current(h), seen, cache, name))
    || (exists cache, name: string :: FromPast(h, cache) && d == NetworkStep(Current(h), cache, name))
    || UserChange(Current(h), d)
  }

  ghost predicate Start(c: Cluster) {
    && Convergence.Pristine(c)
    && (forall p <- c.peers :: p.version <= c.clock)
    && (forall n <- c.networks :: n.version <= c.clock)
  }

  ghost predicate Behaviour(h: History) {
    && h != []
    && Start(h[0])
    && forall k :: 1 <= k < |h| ==> Next(h[..k], h[k])
  }

  // ---- Invariants ----

  /** The controllers agree on a peer: its network exists, and its address is the one recorded there for its name. */
  ghost predicate Agrees(networks: seq<Network>, p: Peer) {
    && (p.status.network != "" ==> p.status.network in NetworkNames(networks))
    && (p.status.address != "" ==>
          && FindNetwork(networks, p.status.network).Some?
          && Recorded(FindNetwork(networks, p.status.network).value.status.allocations, p.meta.name) ==
              Some(p.status.address))
  }

  ghost predicate Good(c: Cluster) {
    && WellFormed(c)
    && (forall p <- c.peers :: p.version <= c.clock)
    && (forall n <- c.networks :: n.version <= c.clock)
    && (forall n <- c.networks :: UniqueNames(AllocationNames(n.status.allocations)))
    && (forall p <- c.peers :: Agrees(c.networks, p))
  }

  /** Networks persist and their allocations only grow at the end. */
  ghost predicate Grown(networks: seq<Network>, later: seq<Network>) {
    forall n <- networks :: exists m <- later :: m.name == n.name && n.status.allocations <= m.status.allocations
  }

  /** `d` comes after `c`: anything that is not the same object has a version younger than `c`. */
  ghost predicate Later(c: Cluster, d: Cluster) {
    && c.clock <= d.clock
    && (forall q <- d.peers :: q in c.peers || q.version > c.clock)
    && (forall n <- d.networks :: n in c.networks || n.version > c.clock)
    && Grown(c.networks, d.networks)
  }

  lemma GrownTransitive(a: seq<Network>, b: seq<Network>, d: seq<Network>)
    requires Grown(a, b) && Grown(b, d)
    ensures Grown(a, d)
  {
    forall n | n in a ensures exists m <- d :: m.name == n.name && n.status.allocations <= m.status.allocations {
      var m :| m in b && m.name == n.name && n.status.allocations <= m.status.allocations;
      var k :| k in d && k.name == m.name && m.status.allocations <= k.status.allocations;
    }
  }

  lemma LaterItself(d: Cluster)
    ensures Later(d, d)
  {
  }

  lemma LaterTransitive(c: Cluster, d: Cluster, e: Cluster)
    requires Later(c, d) && Later(d, e)
    ensures Later(c, e)
  {
    GrownTransitive(c.networks, d.networks, e.networks);
  }

  ghost predicate Sound(h: History) {
    && h != []
    && (forall k :: 0 <= k < |h| ==> Good(h[k]))
    && (forall k :: 0 <= k < |h| ==> Later(h[k], Current(h)))
  }

  lemma FindIn(networks: seq<Network>, n: Network)
    requires UniqueNames(NetworkNames(networks)) && n in networks
    ensures FindNetwork(networks, n.name) == Some(n)
  {
    var j: nat :| j < |networks| && networks[j] == n;
    PositionUnique(NetworkNames(networks), j);
  }

  lemma FoundIn(networks: seq<Network>, name: string)
    ensures FindNetwork(networks, name).Some? <==> name in NetworkNames(networks)
    ensures FindNetwork(networks, name).Some? ==>
              FindNetwork(networks, name).value in networks && FindNetwork(networks, name).value.name == name
  {
  }

  /** What an old list of networks recorded is still recorded. */
  lemma StillRecorded(networks: seq<Network>, later: seq<Network>, network: string, name: string)
    requires Grown(networks, later) && UniqueNames(NetworkNames(later))
    requires FindNetwork(networks, network).Some?
    ensures FindNetwork(later, network).Some? && network in NetworkNames(later)
    ensures var before, now := FindNetwork(networks, network).value.status.allocations,
        FindNetwork(later, network).value.status.allocations;
            Recorded(before, name).Some? ==> Recorded(now, name) == Recorded(before, name)
  {
    FoundIn(networks, network);
    var n := FindNetwork(networks, network).value;
    var m :| m in later && m.name == n.name && n.status.allocations <= m.status.allocations;
    FindIn(later, m);
    FoundIn(later, network);
    var tail := m.status.allocations[|n.status.allocations|..];
    assert m.status.allocations == n.status.allocations + tail;
    if Recorded(n.status.allocations, name).Some? {
      RecordedAppend(n.status.allocations, tail, name);
    }
  }

  lemma AgreesLater(networks: seq<Network>, later: seq<Network>, p: Peer)
    requires Agrees(networks, p) && Grown(networks, later) && UniqueNames(NetworkNames(later))
    ensures Agrees(later, p)
  {
    FoundIn(networks, p.status.network);
    if FindNetwork(networks, p.status.network).Some? {
      StillRecorded(networks, later, p.status.network, p.meta.name);
    }
  }

  /** A version match means that the object read is the object stored. */
  ghost predicate PeerVersionsTell(read: seq<Peer>, stored: seq<Peer>) {
    forall p <- read, q <- stored :: p.meta.name == q.meta.name && p.version == q.version ==> p == q
  }

  ghost predicate NetworkVersionsTell(read: seq<Network>, stored: seq<Network>) {
    forall n <- read, m <- stored :: n.name == m.name && n.version == m.version ==> n == m
  }

  lemma OldPeersTell(c: Cluster, d: Cluster)
    requires Good(c) && Later(c, d)
    ensures PeerVersionsTell(c.peers, d.peers)
  {
    forall p, q | p in c.peers && q in d.peers && p.meta.name == q.meta.name && p.version == q.version ensures p == q {
      assert q in c.peers;
      var i :| 0 <= i < |c.peers| && c.peers[i] == p;
      var k :| 0 <= k < |c.peers| && c.peers[k] == q;
      assert PeerNames(c.peers)[i] == PeerNames(c.peers)[k];
    }
  }

  lemma OldNetworksTell(c: Cluster, d: Cluster)
    requires Good(c) && Later(c, d)
    ensures NetworkVersionsTell(c.networks, d.networks)
  {
    forall n, m | n in c.networks && m in d.networks && n.name == m.name && n.version == m.version ensures n == m {
      assert m in c.networks;
      FindIn(c.networks, n);
      FindIn(c.networks, m);
    }
  }

  // ---- A peer commit ----

  lemma StalePlacementAgrees(networks: seq<Network>, later: seq<Network>, p: Peer)
    requires Grown(networks, later) && UniqueNames(NetworkNames(later)) && UniqueNames(NetworkNames(networks))
    requires p.status.network == "" && p.status.address == "" && ChooseNetwork(p.meta, networks).Ok?
    requires ChooseNetwork(p.meta, networks).value.Some?
    ensures Agrees(later, p.(status := p.status.(network := ChooseNetwork(p.meta, networks).value.value.name)))
  {
    NetworkChoice.ChosenNetworkGrants(p.meta, networks);
    var n := ChooseNetwork(p.meta, networks).value.value;
    FindIn(networks, n);
    StillRecorded(networks, later, n.name, p.meta.name);
  }

  lemma StaleAddressAgrees(networks: seq<Network>, later: seq<Network>, p: Peer)
    requires Grown(networks, later) && UniqueNames(NetworkNames(later))
    requires Agrees(later, p) && p.status.address == "" && FindNetwork(networks, p.status.network).Some?
    ensures var recorded := FindNetwork(networks, p.status.network).value.status.allocations;
            Agrees(later, p.(status := p.status.(address := Recorded(recorded, p.meta.name).GetOr(""))))
  {
    StillRecorded(networks, later, p.status.network, p.meta.name);
  }

  lemma UnplacedUnaddressed(c: Cluster, p: Peer)
    requires WellFormed(c) && Agrees(c.networks, p) && p.status.network == ""
    ensures p.status.address == ""
  {
    NoEmptyName(c);
  }

  /** The status a peer reconcile computes from stale lists still agrees with the current networks. */
  lemma StaleStatusAgrees(c: Cluster, cache: Cluster, p: Peer)
    requires WellFormed(c) && Grown(cache.networks, c.networks) && UniqueNames(NetworkNames(cache.networks))
    requires Agrees(c.networks, p) && NextStatus(p, cache).Ok?
    ensures Agrees(c.networks, p.(status := NextStatus(p, cache).value))
  {
    if p.status.network == "" {
      UnplacedUnaddressed(c, p);
      var r := ChooseNetwork(p.meta, cache.networks);
      if r.Ok? && r.value.Some? {
        StalePlacementAgrees(cache.networks, c.networks, p);
      }
    } else if p.status.address == "" && FindNetwork(cache.networks, p.status.network).Some? {
      StaleAddressAgrees(cache.networks, c.networks, p);
    }
  }

  lemma PutPeerGood(c: Cluster, i: nat, s: PeerStatus)
    requires Good(c) && i < |c.peers| && Agrees(c.networks, c.peers[i].(status := s))
    ensures Good(PutPeer(c, i, s)) && Later(c, PutPeer(c, i, s))
  {
    var d := PutPeer(c, i, s);
    assert PeerNames(d.peers) == PeerNames(c.peers);
    forall q | q in d.peers
      ensures Agrees(d.networks, q) && q.version <= d.clock && (q in c.peers || q.version > c.clock)
    {
      var k :| 0 <= k < |d.peers| && d.peers[k] == q;
      assert k != i ==> q == c.peers[k] && q in c.peers;
    }
    assert Grown(c.networks, d.networks);
  }

  /** What an accepted peer commit does: the object read is the one stored, and its new status is put in its place. */
  lemma PeerCommitAt(c: Cluster, seen: seq<Peer>, cache: Cluster, name: string) returns (i: nat, s: PeerStatus)
    requires PeerVersionsTell(seen, c.peers) && PeerStepFrom(c, seen, cache, name) != c
    ensures i < |c.peers| && c.peers[i] in seen
    ensures NextStatus(c.peers[i], cache) == Ok(s) && s != c.peers[i].status
    ensures PeerStepFrom(c, seen, cache, name) == PutPeer(c, i, s)
  {
    var own := FindPeer(seen, name).value;
    i, s := Position(PeerNames(c.peers), own.meta.name).value, NextStatus(own, cache).value;
    assert own in seen && c.peers[i] in c.peers && own == c.peers[i];
  }

  lemma PeerCommitGood(c: Cluster, seen: seq<Peer>, cache: Cluster, name: string)
    requires Good(c) && Grown(cache.networks, c.networks) && UniqueNames(NetworkNames(cache.networks))
    requires PeerVersionsTell(seen, c.peers)
    ensures Good(PeerStepFrom(c, seen, cache, name)) && Later(c, PeerStepFrom(c, seen, cache, name))
  {
    if PeerStepFrom(c, seen, cache, name) != c {
      var i, s := PeerCommitAt(c, seen, cache, name);
      StaleStatusAgrees(c, cache, c.peers[i]);
      PutPeerGood(c, i, s);
    } else {
      LaterItself(c);
    }
  }

  // ---- A network commit ----

  lemma PutNetworkGood(c: Cluster, j: nat, s: NetworkStatus)
    requires Good(c) && j < |c.networks| && c.networks[j].status.allocations <= s.allocations
    requires UniqueNames(AllocationNames(s.allocations))
    ensures Good(PutNetwork(c, j, s)) && Later(c, PutNetwork(c, j, s))
  {
    var d := PutNetwork(c, j, s);
    assert NetworkNames(d.networks) == NetworkNames(c.networks);
    forall n | n in d.networks
      ensures n.name != "" && n.version <= d.clock && UniqueNames(AllocationNames(n.status.allocations))
      ensures n in c.networks || n.version > c.clock
    {
      var k :| 0 <= k < |d.networks| && d.networks[k] == n;
      assert c.networks[k] in c.networks;
    }
    forall n | n in c.networks
      ensures exists m <- d.networks :: m.name == n.name && n.status.allocations <= m.status.allocations
    {
      var k :| 0 <= k < |c.networks| && c.networks[k] == n;
      assert d.networks[k] in d.networks && n.status.allocations <= d.networks[k].status.allocations;
    }
    forall p | p in d.peers ensures Agrees(d.networks, p) {
      AgreesLater(c.networks, d.networks, p);
    }
  }

  lemma NetworkCommitAt(c: Cluster, cache: Cluster, name: string) returns (j: nat)
    requires NetworkVersionsTell(cache.networks, c.networks) && NetworkStep(c, cache, name) != c
    ensures j < |c.networks| && c.networks[j] in cache.networks && c.networks[j].name == name
    ensures Fresh(c.networks[j], cache.peers) != []
    ensures NetworkStep(c, cache, name) == PutNetwork(c, j, NetworkStatus(NextAllocations(c.networks[j], cache.peers)))
  {
    var own := FindNetwork(cache.networks, name).value;
    j := Position(NetworkNames(c.networks), own.name).value;
    assert own in cache.networks && c.networks[j] in c.networks && own == c.networks[j];
  }

  lemma NetworkCommitGood(c: Cluster, cache: Cluster, name: string)
    requires Good(c) && UniqueNames(PeerNames(cache.peers)) && NetworkVersionsTell(cache.networks, c.networks)
    ensures Good(NetworkStep(c, cache, name)) && Later(c, NetworkStep(c, cache, name))
  {
    if NetworkStep(c, cache, name) != c {
      var j := NetworkCommitAt(c, cache, name);
      NextAllocationsExtend(c.networks[j], cache.peers);
      PutNetworkGood(c, j, NetworkStatus(NextAllocations(c.networks[j], cache.peers)));
    } else {
      LaterItself(c);
    }
  }

  /** What a cache made of past lists is known to satisfy. */
  lemma PastCache(h: History, cache: Cluster)
    requires Sound(h) && FromPast(h, cache)
    ensures var c := Current(h);
            && Good(c)
            && Grown(cache.networks, c.networks)
            && UniqueNames(NetworkNames(cache.networks)) && UniqueNames(PeerNames(cache.peers))
            && NetworkVersionsTell(cache.networks, c.networks)
  {
    var a :| 0 <= a < |h| && cache.peers == h[a].peers;
    var b :| 0 <= b < |h| && cache.networks == h[b].networks;
    assert Good(h[a]);
    OldNetworksTell(h[b], Current(h));
  }

  lemma PastTells(h: History, seen: seq<Peer>)
    requires Sound(h) && PastPeers(h, seen)
    ensures PeerVersionsTell(seen, Current(h).peers)
  {
    var a :| 0 <= a < |h| && seen == h[a].peers;
    OldPeersTell(h[a], Current(h));
  }

  // ---- A user's change ----

  lemma UserNetworksGrown(c: Cluster, d: Cluster)
    requires Good(c) && UserChange(c, d)
    ensures Grown(c.networks, d.networks)
    ensures forall n <- d.networks :: UniqueNames(AllocationNames(n.status.allocations))
  {
    forall n | n in c.networks
      ensures exists m <- d.networks :: m.name == n.name && n.status.allocations <= m.status.allocations
    {
      var k :| 0 <= k < |d.networks| && NetworkNames(d.networks)[k] == n.name;
      var m := d.networks[k];
      assert m in d.networks;
      var origin := if m in c.networks then m else UserOrigin(c, d, m, n);
      FindIn(c.networks, n);
      FindIn(c.networks, origin);
    }
  }

  ghost function UserOrigin(c: Cluster, d: Cluster, m: Network, n: Network): (o: Network)
    requires UserChange(c, d) && m in d.networks && m !in c.networks && n in c.networks && m.name == n.name
    ensures o in c.networks && o.name == m.name && o.status == m.status
  {
    var j :| 0 <= j < |c.networks| && c.networks[j] == n;
    assert NetworkNames(c.networks)[j] == m.name;
    var o :| o in c.networks && o.name == m.name && o.status == m.status;
    o
  }

  lemma UserSound(c: Cluster, d: Cluster)
    requires Good(c) && UserChange(c, d)
    ensures Good(d) && Later(c, d)
  {
    UserNetworksGrown(c, d);
    forall q | q in d.peers ensures Agrees(d.networks, q) {
      if q in c.peers {
        AgreesLater(c.networks, d.networks, q);
      } else if q.status != EMPTY_STATUS {
        var p :| p in c.peers && p.meta.name == q.meta.name && p.status == q.status;
        AgreesLater(c.networks, d.networks, p);
      }
    }
  }

  // ---- Histories ----

  lemma NextGood(h: History, d: Cluster)
    requires Sound(h) && Next(h, d)
    ensures Good(d) && Later(Current(h), d)
  {
    var c := Current(h);
    assert Good(c);
    if seen, cache, name :| PastPeers(h, seen) && FromPast(h, cache) && d == PeerStepFrom(c, seen, cache, name) {
      PastCache(h, cache);
      PastTells(h, seen);
      PeerCommitGood(c, seen, cache, name);
    } else if cache, name :| FromPast(h, cache) && d == NetworkStep(c, cache, name) {
      PastCache(h, cache);
      NetworkCommitGood(c, cache, name);
    } else {
      UserSound(c, d);
    }
  }

  /** A sound history stays sound when a good later state is added. */
  lemma NextSound(h: History, g: History)
    requires Sound(h) && |g| == |h| + 1 && g[..|h|] == h
    requires Good(Current(g)) && Later(Current(h), Current(g))
    ensures Sound(g)
  {
    forall k | 0 <= k < |g| ensures Good(g[k]) && Later(g[k], Current(g)) {
      if k < |h| {
        assert g[k] == h[k];
        LaterTransitive(h[k], Current(h), Current(g));
      } else {
        LaterItself(Current(g));
      }
    }
  }

  lemma BehaviourPrefix(h: History, k: nat)
    requires Behaviour(h) && 1 <= k <= |h|
    ensures Behaviour(h[..k])
  {
    var g: History := h[..k];
    forall i | 1 <= i < |g| ensures Next(g[..i], g[i]) {
      assert g[..i] == h[..i];
    }
  }

  lemma StartSound(c: Cluster)
    requires Start(c)
    ensures Sound([c])
  {
    LaterItself(c);
  }

  lemma LastIsNext(h: History)
    requires Behaviour(h) && |h| > 1
    ensures Next(h[..|h| - 1], Current(h))
  {
  }

  lemma LastGood(h: History)
    requires Behaviour(h) && |h| > 1 && Sound(h[..|h| - 1])
    ensures Good(Current(h)) && Later(Current(h[..|h| - 1]), Current(h))
  {
    LastIsNext(h);
    NextGood(h[..|h| - 1], Current(h));
  }

  lemma {:induction false} BehaviourSound(h: History)
    requires Behaviour(h)
    ensures Sound(h)
    decreases |h|
  {
    if |h| == 1 {
      assert h == [h[0]];
      StartSound(h[0]);
    } else {
      BehaviourPrefix(h, |h| - 1);
      BehaviourSound(h[..|h| - 1]);
      LastGood(h);
      NextSound(h[..|h| - 1], h);
    }
  }

  /** Controller agreement: in every state of every behaviour, a peer's address is the one its network records for it,
      however old the lists were that either controller read. */
  lemma ControllersAgree(h: History, k: nat, p: Peer)
    requires Behaviour(h) && k < |h| && p in h[k].peers && p.status.address != ""
    ensures var n := FindNetwork(h[k].networks, p.status.network);
            n.Some? && Recorded(n.value.status.allocations, p.meta.name) == Some(p.status.address)
  {
    BehaviourSound(h);
    assert Good(h[k]) && Agrees(h[k].networks, p);
  }

  lemma SoundGrown(h: History, a: nat)
    requires Sound(h) && a < |h|
    ensures Grown(h[a].networks, Current(h).networks)
    ensures UniqueNames(NetworkNames(Current(h).networks))
    ensures forall n <- h[a].networks :: UniqueNames(AllocationNames(n.status.allocations))
  {
    assert Good(h[a]) && Later(h[a], Current(h)) && Good(Current(h));
  }

  /** A commit based on stale lists never moves a placed peer nor renumbers an addressed one. */
  lemma CommitsStick(h: History, seen: seq<Peer>, cache: Cluster, name: string, k: nat)
    requires Behaviour(h) && PastPeers(h, seen) && FromPast(h, cache) && k < |Current(h).peers|
    ensures var c, d := Current(h), PeerStepFrom(Current(h), seen, cache, name);
            && |d.peers| == |c.peers|
            && d.peers[k].meta == c.peers[k].meta && d.peers[k].spec == c.peers[k].spec
            && (c.peers[k].status.network != "" ==> d.peers[k].status.network == c.peers[k].status.network)
            && (c.peers[k].status.address != "" ==> d.peers[k].status.address == c.peers[k].status.address)
  {
    BehaviourSound(h);
    PastTells(h, seen);
    StepSticks(Current(h), seen, cache, name, k);
  }

  lemma StepSticks(c: Cluster, seen: seq<Peer>, cache: Cluster, name: string, k: nat)
    requires PeerVersionsTell(seen, c.peers) && k < |c.peers|
    ensures var d := PeerStepFrom(c, seen, cache, name);
            && |d.peers| == |c.peers|
            && d.peers[k].meta == c.peers[k].meta && d.peers[k].spec == c.peers[k].spec
            && (c.peers[k].status.network != "" ==> d.peers[k].status.network == c.peers[k].status.network)
            && (c.peers[k].status.address != "" ==> d.peers[k].status.address == c.peers[k].status.address)
  {
    if PeerStepFrom(c, seen, cache, name) != c {
      var i, s := PeerCommitAt(c, seen, cache, name);
    }
  }

  lemma StatesGrown(h: History, a: nat, b: nat)
    requires Behaviour(h) && a <= b < |h|
    ensures Grown(h[a].networks, h[b].networks)
    ensures UniqueNames(NetworkNames(h[b].networks))
    ensures forall n <- h[a].networks :: UniqueNames(AllocationNames(n.status.allocations))
  {
    hide Behaviour, Sound;
    var g: History := h[..b + 1];
    assert g[a] == h[a] && Current(g) == h[b];
    BehaviourPrefix(h, b + 1);
    BehaviourSound(g);
    SoundGrown(g, a);
  }

  /** Allocation lists are partial functions from names to addresses, and later ones extend earlier ones. */
  lemma AllocationsGrow(h: History, a: nat, b: nat, n: Network)
    requires Behaviour(h) && a <= b < |h| && n in h[a].networks
    ensures UniqueNames(AllocationNames(n.status.allocations))
    ensures FindNetwork(h[b].networks, n.name).Some?
    ensures n.status.allocations <= FindNetwork(h[b].networks, n.name).value.status.allocations
  {
    StatesGrown(h, a, b);
    var m :| m in h[b].networks && m.name == n.name && n.status.allocations <= m.status.allocations;
    FindIn(h[b].networks, m);
  }

  /** The reconciles of an atomic run are steps of this system too. */
  lemma AtomicIsNext(h: History, e: Event)
    requires h != []
    ensures Next(h, Step(Current(h), e))
  {
    var c := Current(h);
    assert FromPast(h, c) by {
      assert c == h[|h| - 1];
    }
  }
}
