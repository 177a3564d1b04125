/** pkg/controller/peer: places a peer in a network, copies its address, then computes its mesh. */
module PeerController {
  import opened Common
  import opened Text
  import opened Api
  import opened ApiServer

  /** Host and mask of an address; a missing or empty mask counts as 32 and leaves the text whole. */
  function SplitNetMask(s: string): (string, string) {
    var idx := Index(s, '/');
    if idx == -1 || idx == |s| - 1 then (s, "32") else (s[..idx], s[idx + 1..])
  }

  /** The host is what stands before the first slash, unless there is none or nothing follows it. */
  lemma SplitNetMaskExact(s: string)
    ensures '/' !in s ==> SplitNetMask(s) == (s, "32")
    ensures '/' in s && '/' !in s[..|s| - 1] ==> SplitNetMask(s) == (s, "32")
    ensures '/' in s && '/' in s[..|s| - 1] ==>
              var (host, mask) := SplitNetMask(s);
              host + "/" + mask == s && '/' !in host && mask != ""
  {
    var i := Index(s, '/');
    if i >= 0 {
      assert s == s[..i] + [s[i]] + s[i + 1..];
      assert "/" == [s[i]];
    }
  }

  // ---- Choosing a network ----

  /** Some rule of the network matches. */
  predicate Selects(n: Network, m: ObjectMeta) {
    exists i :: 0 <= i < |n.spec.allocations| && RuleMatches(m, n.spec.allocations[i])
  }

  function Selecting(m: ObjectMeta, networks: seq<Network>): seq<Network> {
    if networks == [] then []
    else
      var n := networks[|networks| - 1];
      Selecting(m, networks[..|networks| - 1]) + if Selects(n, m) then [n] else []
  }

  /** No network, the only selecting network, or an error when there are several. */
  function ChooseNetwork(m: ObjectMeta, networks: seq<Network>): Result<Option<Network>> {
    var found := Selecting(m, networks);
    if |found| == 0 then Ok(None)
    else if |found| == 1 then Ok(Some(found[0]))
    else Err
  }

  lemma SelectingPrefix(m: ObjectMeta, networks: seq<Network>, i: nat)
    requires i <= |networks|
    ensures |Selecting(m, networks[..i])| <= |Selecting(m, networks)|
    decreases |networks|
  {
    if i == |networks| {
      assert networks[..i] == networks;
    } else {
      assert networks[..|networks| - 1][..i] == networks[..i];
      SelectingPrefix(m, networks[..|networks| - 1], i);
    }
  }

  method AllocateNetwork(p: Peer, networks: seq<Network>) returns (r: Result<Option<Network>>)
    ensures r == ChooseNetwork(p.meta, networks)
  {
    var chosen: Option<Network> := None;
    for i := 0 to |networks|
      invariant chosen.None? ==> Selecting(p.meta, networks[..i]) == []
      invariant chosen.Some? ==> Selecting(p.meta, networks[..i]) == [chosen.value]
    {
      var n := networks[i];
      assert networks[..i + 1][..i] == networks[..i];
      var hit := false;
      for j := 0 to |n.spec.allocations|
        invariant !hit
        invariant forall k :: 0 <= k < j ==> !RuleMatches(p.meta, n.spec.allocations[k])
      {
        var matches := MatchesRule(p, n.spec.allocations[j]);
        if matches {
          hit := true;
          break;
        }
      }
      if hit {
        if chosen.Some? {
          SelectingPrefix(p.meta, networks, i + 1);
          return Err;
        }
        chosen := Some(n);
      }
    }
    assert networks[..|networks|] == networks;
    return Ok(chosen);
  }

  // ---- Computing the mesh ----

  /** The bindings that select a peer, whatever network they name. */
  function BindingsFor(m: ObjectMeta, bindings: seq<RouteBinding>): seq<RouteBinding> {
    if bindings == [] then []
    else
      var rr := bindings[|bindings| - 1];
      BindingsFor(m, bindings[..|bindings| - 1]) + if Matches(m, rr.selector) then [rr] else []
  }

  function RoutesOf(bindings: seq<RouteBinding>): seq<string> {
    if bindings == [] then []
    else RoutesOf(bindings[..|bindings| - 1]) + bindings[|bindings| - 1].routes
  }

  /** Another addressed peer of the same network. */
  predicate Neighbour(p: Peer, q: Peer) {
    && p.status.network == q.status.network
    && q.status.address != ""
    && q.meta.name != p.meta.name
  }

  predicate Listens(p: Peer) {
    Host(p.spec.endpoint) != ""
  }

  /** A neighbour that can be connected: one of the two sides listens. */
  predicate Linked(p: Peer, q: Peer) {
    Neighbour(p, q) && (Listens(p) || Listens(q))
  }

  function Entry(q: Peer, bindings: seq<RouteBinding>): PeerConfiguration {
    PeerConfiguration(
      q.meta.name,
      q.spec.publicKey,
      if Listens(q) then q.spec.endpoint else "",
      [SplitNetMask(q.status.address).0 + "/32"] + RoutesOf(BindingsFor(q.meta, bindings)))
  }

  function Entries(p: Peer, peers: seq<Peer>, bindings: seq<RouteBinding>): seq<PeerConfiguration> {
    if peers == [] then []
    else
      var q := peers[|peers| - 1];
      Entries(p, peers[..|peers| - 1], bindings) + if Linked(p, q) then [Entry(q, bindings)] else []
  }

  /** The computation succeeds when the peer's own endpoint and those of all its neighbours split. */
  predicate Computable(p: Peer, peers: seq<Peer>) {
    && Splits(p.spec.endpoint)
    && forall q <- peers :: Neighbour(p, q) ==> Splits(q.spec.endpoint)
  }

  lemma {:induction false} EntriesListed(p: Peer, peers: seq<Peer>, bindings: seq<RouteBinding>)
    ensures forall c <- Entries(p, peers, bindings) :: exists q <- peers :: Linked(p, q) && c == Entry(q, bindings)
    ensures forall q <- peers :: Linked(p, q) ==> Entry(q, bindings) in Entries(p, peers, bindings)
  {
    if peers != [] {
      var k := |peers| - 1;
      EntriesListed(p, peers[..k], bindings);
      assert peers == peers[..k] + [peers[k]];
    }
  }

  function Mesh(p: Peer, peers: seq<Peer>, bindings: seq<RouteBinding>): Result<seq<PeerConfiguration>> {
    if Computable(p, peers) then Ok(Entries(p, peers, bindings)) else Err
  }

  // ---- Reconciling ----

  /** The status a reconcile wants for a peer, given what it reads. */
  function NextStatus(p: Peer, cache: Cluster): Result<PeerStatus> {
    if p.status.network == "" then
      match ChooseNetwork(p.meta, cache.networks)
      case Ok(Some(n)) => Ok(p.status.(network := n.name))
      case _ => Ok(p.status)
    else
      match FindNetwork(cache.networks, p.status.network)
      case None => Ok(p.status)
      case Some(n) =>
        if p.status.address == "" then
          Ok(p.status.(address := Recorded(n.status.allocations, p.meta.name).GetOr("")))
        else
          match Mesh(p, cache.peers, cache.bindings)
          case Ok(cfgs) => Ok(p.status.(peers := cfgs))
          case Err => Err
  }

  /** The object a peer reconcile tries to store, if the status changed; the peer itself is read from `seen`. */
  function PeerWrite(seen: seq<Peer>, cache: Cluster, name: string): Option<Peer> {
    match FindPeer(seen, name)
    case None => None
    case Some(p) =>
      match NextStatus(p, cache)
      case Err => None
      case Ok(s) => if s == p.status then None else Some(p.(status := s))
  }

  /** One peer reconcile that reads `seen` and `cache` and writes `server`. */
  function PeerStepFrom(server: Cluster, seen: seq<Peer>, cache: Cluster, name: string): Cluster {
    match PeerWrite(seen, cache, name)
    case None => server
    case Some(p) => CommitPeer(server, p).GetOr(server)
  }

  /** Reconcile reports an error when the mesh cannot be computed or the update is refused. */
  predicate PeerFailsFrom(server: Cluster, seen: seq<Peer>, cache: Cluster, name: string) {
    || (FindPeer(seen, name).Some? && NextStatus(FindPeer(seen, name).value, cache).Err?)
    || (PeerWrite(seen, cache, name).Some? && CommitPeer(server, PeerWrite(seen, cache, name).value).None?)
  }

  /** One peer reconcile that reads everything from one state. */
  function PeerStep(server: Cluster, cache: Cluster, name: string): Cluster {
    PeerStepFrom(server, cache.peers, cache, name)
  }

  predicate PeerFails(server: Cluster, cache: Cluster, name: string) {
    PeerFailsFrom(server, cache.peers, cache, name)
  }

  /** What a reconcile reports and leaves behind, stated over the object it tried to store. */
  ghost predicate PeerOutcome(
    server: Cluster, seen: seq<Peer>, cache: Cluster, name: string, after: Cluster, ok: bool)
  {
    match PeerWrite(seen, cache, name)
    case None =>
      && after == server
      && (ok <==> (FindPeer(seen, name).Some? ==> NextStatus(FindPeer(seen, name).value, cache).Ok?))
    case Some(p) =>
      if PeerCurrent(server, p) then ok && PeerStored(server, p, after) else !ok && after == server
  }

  /** An update refused for a version conflict or a missing object is reported, and so is a failed mesh. */
  lemma PeerOutcomeOf(server: Cluster, seen: seq<Peer>, cache: Cluster, name: string)
    ensures UniqueNames(PeerNames(server.peers)) ==>
              PeerOutcome(server, seen, cache, name, PeerStepFrom(server, seen, cache, name),
                          !PeerFailsFrom(server, seen, cache, name))
  {
    hide NextStatus;
    if UniqueNames(PeerNames(server.peers)) && PeerWrite(seen, cache, name).Some? {
      CommitPeerExact(server, PeerWrite(seen, cache, name).value);
    }
  }

  class ReconcilePeer {
    const client: Client

    constructor (client: Client)
      ensures this.client == client
    {
      this.client := client;
    }

    method RouteRulesForPeer(p: Peer) returns (bindings: seq<RouteBinding>)
      ensures forall rr :: rr in bindings <==> rr in client.cache.bindings && Matches(p.meta, rr.selector)
      ensures bindings == BindingsFor(p.meta, client.cache.bindings)
    {
      var rules := client.cache.bindings;
      bindings := [];
      for i := 0 to |rules|
        invariant forall rr :: rr in bindings <==> rr in rules[..i] && Matches(p.meta, rr.selector)
        invariant bindings == BindingsFor(p.meta, rules[..i])
      {
        assert rules[..i + 1] == rules[..i] + [rules[i]];
        assert rules[..i + 1][..i] == rules[..i];
        var matches := PeerMatchesSelector(p, rules[i].selector);
        if !matches {
          continue;
        }
        bindings := bindings + [rules[i]];
      }
      assert rules[..|rules|] == rules;
    }

    /** The entry for one neighbour, whose endpoint has already been split. */
    method BuildEntry(peer: Peer, host: string) returns (cfg: PeerConfiguration)
      requires SplitHostPort(peer.spec.endpoint).Ok? && host == SplitHostPort(peer.spec.endpoint).value.host
      ensures cfg.name == peer.meta.name && cfg.publicKey == peer.spec.publicKey
      ensures cfg.endpoint == if host != "" then peer.spec.endpoint else ""
      ensures cfg.allowedIPs ==
                [SplitNetMask(peer.status.address).0 + "/32"] + RoutesOf(BindingsFor(peer.meta, client.cache.bindings))
      ensures cfg == Entry(peer, client.cache.bindings)
    {
      cfg := PeerConfiguration(peer.meta.name, peer.spec.publicKey, "", []);
      if host != "" {
        cfg := cfg.(endpoint := peer.spec.endpoint);
      }
      var peerIP := SplitNetMask(peer.status.address).0;
      var allowedIPs := [peerIP + "/32"];
      var routeRules := RouteRulesForPeer(peer);
      for j := 0 to |routeRules|
        invariant allowedIPs == [peerIP + "/32"] + RoutesOf(routeRules[..j])
      {
        assert routeRules[..j + 1][..j] == routeRules[..j];
        allowedIPs := allowedIPs + routeRules[j].routes;
      }
      assert routeRules[..|routeRules|] == routeRules;
      cfg := cfg.(allowedIPs := allowedIPs);
    }

    method ComputePeerConfigurations(p: Peer) returns (r: Result<seq<PeerConfiguration>>)
      ensures r.Err? <==>
                || SplitHostPort(p.spec.endpoint).Err?
                || exists q <- client.cache.peers ::
                     && q.status.network == p.status.network && q.status.address != "" && q.meta.name != p.meta.name
                     && SplitHostPort(q.spec.endpoint).Err?
      ensures r.Ok? ==> forall c <- r.value :: exists q <- client.cache.peers ::
                          && q.status.network == p.status.network && q.status.address != ""
                          && q.meta.name != p.meta.name
                          && (Host(p.spec.endpoint) != "" || Host(q.spec.endpoint) != "")
                          && c.name == q.meta.name && c.publicKey == q.spec.publicKey
                          && c.endpoint == (if Host(q.spec.endpoint) != "" then q.spec.endpoint else "")
      ensures r.Ok? ==> forall q <- client.cache.peers ::
                          && q.status.network == p.status.network && q.status.address != ""
                          && q.meta.name != p.meta.name
                          && (Host(p.spec.endpoint) != "" || Host(q.spec.endpoint) != "") ==>
                          exists c <- r.value :: c.name == q.meta.name && c.publicKey == q.spec.publicKey
      ensures r == Mesh(p, client.cache.peers, client.cache.bindings)
    {
      hide SplitHostPort, SplitNetMask, RoutesOf, BindingsFor;
      EntriesListed(p, client.cache.peers, client.cache.bindings);
      var peers := client.cache.peers;
      var own := SplitHostPort(p.spec.endpoint);
      if own.Err? {
        return Err;
      }
      var listensForConnections := own.value.host != "";
      var cfgs: seq<PeerConfiguration> := [];
      for i := 0 to |peers|
        invariant forall q <- peers[..i] :: Neighbour(p, q) ==> Splits(q.spec.endpoint)
        invariant cfgs == Entries(p, peers[..i], client.cache.bindings)
      {
        var peer := peers[i];
        assert peers[..i + 1] == peers[..i] + [peer];
        assert peers[..i + 1][..i] == peers[..i];
        if p.status.network != peer.status.network {
          continue;
        }
        if peer.status.address == "" {
          continue;
        }
        if peer.meta.name == p.meta.name {
          continue;
        }
        var remote := SplitHostPort(peer.spec.endpoint);
        if remote.Err? {
          assert Neighbour(p, peer) && peer in peers;
          return Err;
        }
        var host := remote.value.host;
        if host == "" && !listensForConnections {
          continue;
        }
        var cfg := BuildEntry(peer, host);
        cfgs := cfgs + [cfg];
      }
      assert peers[..|peers|] == peers;
      return Ok(cfgs);
    }

    method Reconcile(name: string) returns (ok: bool)
      modifies client`server
      ensures client.server == PeerStepFrom(old(client.server), client.seen, client.cache, name)
      ensures !ok <==> PeerFailsFrom(old(client.server), client.seen, client.cache, name)
      ensures UniqueNames(PeerNames(old(client.server).peers)) ==>
                PeerOutcome(old(client.server), client.seen, client.cache, name, client.server, ok)
    {
      hide PeerStored, PeerCurrent, PeerOutcome, UniqueNames, CommitPeer, ChooseNetwork, FindNetwork, FindPeer, Mesh;
      PeerOutcomeOf(client.server, client.seen, client.cache, name);
      var instance := client.GetPeer(name);
      if instance.None? {
        return true;
      }
      var peer := instance.value;

      if peer.status.network == "" {
        var n := AllocateNetwork(peer, client.cache.networks);
        if n.Err? {
          return true;
        }
        if n.value.None? {
          return true;
        }
        peer := peer.(status := peer.status.(network := n.value.value.name));
      } else if peer.status.address == "" {
        var network := client.GetNetwork(peer.status.network);
        if network.None? {
          return true;
        }
        var recorded := network.value.status.allocations;
        var names := AllocationNames(recorded);
        for i := 0 to |recorded|
          invariant peer == instance.value
          invariant peer.meta.name !in names[..i]
          invariant client.server == old(client.server)
        {
          if recorded[i].name == peer.meta.name {
            assert Position(names, peer.meta.name) == Some(i);
            peer := peer.(status := peer.status.(address := recorded[i].address));
            break;
          }
          assert names[..i + 1] == names[..i] + [names[i]];
        }
        assert names[..|names|] == names;
        assert NextStatus(instance.value, client.cache) == Ok(peer.status);
      } else {
        var network := client.GetNetwork(peer.status.network);
        if network.None? {
          return true;
        }
        var cfgs := ComputePeerConfigurations(peer);
        if cfgs.Err? {
          return false;
        }
        peer := peer.(status := peer.status.(peers := cfgs.value));
      }

      if instance.value.status != peer.status {
        ok := client.UpdatePeerStatus(peer);
        if !ok {
          return false;
        }
      }
      return true;
    }
  }

  // ---- Which peers to reconcile after a change to a network or a route binding ----

  /** The listed peers whose current network has a given name, in list order. */
  function PeersIn(network: string, peers: seq<Peer>): seq<string> {
    if peers == [] then []
    else
      var p := peers[|peers| - 1];
      PeersIn(network, peers[..|peers| - 1]) + if network == p.status.network then [p.meta.name] else []
  }

  method MapNetwork(client: Client, n: Network) returns (reqs: seq<string>)
    ensures forall name :: name in reqs <==>
              exists p <- client.cache.peers :: p.status.network == n.name && p.meta.name == name
    ensures reqs == PeersIn(n.name, client.cache.peers)
  {
    reqs := [];
    var peers := client.cache.peers;
    for i := 0 to |peers|
      invariant forall name :: name in reqs <==>
                  exists p <- peers[..i] :: p.status.network == n.name && p.meta.name == name
      invariant reqs == PeersIn(n.name, peers[..i])
    {
      assert peers[..i + 1] == peers[..i] + [peers[i]];
      assert peers[..i + 1][..i] == peers[..i];
      if n.name == peers[i].status.network {
        reqs := reqs + [peers[i].meta.name];
      }
    }
    assert peers[..|peers|] == peers;
  }

  method MapRouteBinding(client: Client, r: RouteBinding) returns (reqs: seq<string>)
    ensures forall name :: name in reqs <==>
              exists p <- client.cache.peers :: p.status.network == r.network && p.meta.name == name
    ensures reqs == PeersIn(r.network, client.cache.peers)
  {
    reqs := [];
    var peers := client.cache.peers;
    for i := 0 to |peers|
      invariant forall name :: name in reqs <==>
                  exists p <- peers[..i] :: p.status.network == r.network && p.meta.name == name
      invariant reqs == PeersIn(r.network, peers[..i])
    {
      assert peers[..i + 1] == peers[..i] + [peers[i]];
      assert peers[..i + 1][..i] == peers[..i];
      if r.network == peers[i].status.network {
        reqs := reqs + [peers[i].meta.name];
      }
    }
    assert peers[..|peers|] == peers;
  }
}
