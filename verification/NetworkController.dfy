/** pkg/controller/network: hands out addresses to the peers of a network. */
module NetworkController {
  import opened Common
  import opened Api
  import opened ApiServer

  /** Index of the first rule that matches. */
  function FirstRule(m: ObjectMeta, rules: seq<AllocationRule>): (r: Option<nat>)
    ensures r.Some? ==> r.value < |rules| && RuleMatches(m, rules[r.value])
    ensures r.Some? ==> forall i :: 0 <= i < r.value ==> !RuleMatches(m, rules[i])
    ensures r.None? ==> forall i :: 0 <= i < |rules| ==> !RuleMatches(m, rules[i])
  {
    if rules == [] then None
    else if RuleMatches(m, rules[0]) then Some(0)
    else
      match FirstRule(m, rules[1..])
      case None => None
      case Some(i) => Some(i + 1)
  }

  /** The address of the first matching rule; a rule that names no address grants the empty one. */
  function AssignedAddress(m: ObjectMeta, rules: seq<AllocationRule>): (r: Option<string>)
    ensures forall i :: 0 <= i < |rules| && RuleMatches(m, rules[i])
                        && (forall j :: 0 <= j < i ==> !RuleMatches(m, rules[j])) ==>
              r == Some(rules[i].address.GetOr(""))
    ensures r.None? <==> forall i :: 0 <= i < |rules| ==> !RuleMatches(m, rules[i])
  {
    match FirstRule(m, rules)
    case None => None
    case Some(i) => Some(rules[i].address.GetOr(""))
  }

  method AllocateIP(p: Peer, n: Network) returns (address: Result<string>)
    ensures var rules := n.spec.allocations;
            forall i :: 0 <= i < |rules| && RuleMatches(p.meta, rules[i])
                        && (forall j :: 0 <= j < i ==> !RuleMatches(p.meta, rules[j])) ==>
              address == Ok(if rules[i].address.Some? then rules[i].address.value else "")
    ensures address.Err? <==> forall i :: 0 <= i < |n.spec.allocations| ==> !RuleMatches(p.meta, n.spec.allocations[i])
    ensures address == match AssignedAddress(p.meta, n.spec.allocations) { case None => Err case Some(a) => Ok(a) }
  {
    for i := 0 to |n.spec.allocations|
      invariant forall j :: 0 <= j < i ==> !RuleMatches(p.meta, n.spec.allocations[j])
    {
      var r := n.spec.allocations[i];
      var matches := MatchesRule(p, r);
      if matches {
        if r.address.None? {
          return Ok("");
        }
        return Ok(r.address.value);
      }
    }
    return Err;
  }

  /** Does reconciling network `n` append an entry for `p`? */
  predicate Gains(n: Network, p: Peer) {
    && p.status.network == n.name
    && p.meta.name !in AllocationNames(n.status.allocations)
    && AssignedAddress(p.meta, n.spec.allocations).Some?
  }

  /** The entries appended for a peer list, in list order. */
  function Fresh(n: Network, peers: seq<Peer>): seq<IPAssignment> {
    if peers == [] then []
    else
      var p := peers[|peers| - 1];
      Fresh(n, peers[..|peers| - 1])
      + if Gains(n, p) then [IPAssignment(p.meta.name, AssignedAddress(p.meta, n.spec.allocations).value)] else []
  }

  function NextAllocations(n: Network, peers: seq<Peer>): seq<IPAssignment> {
    n.status.allocations + Fresh(n, peers)
  }

  /** Names of the listed peers that belong to a network. */
  function Members(network: string, peers: seq<Peer>): set<string> {
    set p <- peers | p.status.network == network :: p.meta.name
  }

  /** The entries whose names are still wanted. */
  function Live(allocations: seq<IPAssignment>, names: set<string>): seq<IPAssignment> {
    if allocations == [] then []
    else
      var a := allocations[|allocations| - 1];
      Live(allocations[..|allocations| - 1], names) + if a.name in names then [a] else []
  }

  /** Drops the entries of names that are not wanted. */
  method Prune(allocations: seq<IPAssignment>, networkPeers: set<string>) returns (newAllocations: seq<IPAssignment>)
    ensures forall a :: a in newAllocations <==> a in allocations && a.name in networkPeers
    ensures newAllocations == Live(allocations, networkPeers)
  {
    newAllocations := [];
    for i := 0 to |allocations|
      invariant forall a :: a in newAllocations <==> a in allocations[..i] && a.name in networkPeers
      invariant newAllocations == Live(allocations[..i], networkPeers)
    {
      assert allocations[..i + 1][..i] == allocations[..i];
      assert allocations[..i + 1] == allocations[..i] + [allocations[i]];
      if allocations[i].name in networkPeers {
        newAllocations := newAllocations + [allocations[i]];
      }
    }
    assert allocations[..|allocations|] == allocations;
  }

  /** The object a network reconcile tries to store, if the status changed. */
  function NetworkWrite(cache: Cluster, name: string): Option<Network> {
    match FindNetwork(cache.networks, name)
    case None => None
    case Some(n) =>
      var next := NetworkStatus(NextAllocations(n, cache.peers));
      if next == n.status then None else Some(n.(status := next))
  }

  /** One network reconcile that reads `cache` and writes `server`. */
  function NetworkStep(server: Cluster, cache: Cluster, name: string): Cluster {
    match NetworkWrite(cache, name)
    case None => server
    case Some(n) => CommitNetwork(server, n).GetOr(server)
  }

  /** What a reconcile reports and leaves behind, stated over the object it tried to store. */
  ghost predicate NetworkOutcome(server: Cluster, cache: Cluster, name: string, after: Cluster, ok: bool) {
    match NetworkWrite(cache, name)
    case None => ok && after == server
    case Some(n) =>
      if NetworkCurrent(server, n) then ok && NetworkStored(server, n, after) else !ok && after == server
  }

  predicate NetworkFails(server: Cluster, cache: Cluster, name: string) {
    NetworkWrite(cache, name).Some? && CommitNetwork(server, NetworkWrite(cache, name).value).None?
  }

  /** An update refused for a version conflict or a missing object is reported, and nothing else is. */
  lemma NetworkOutcomeOf(server: Cluster, cache: Cluster, name: string)
    ensures UniqueNames(NetworkNames(server.networks)) ==>
              NetworkOutcome(server, cache, name, NetworkStep(server, cache, name), !NetworkFails(server, cache, name))
  {
    if UniqueNames(NetworkNames(server.networks)) && NetworkWrite(cache, name).Some? {
      CommitNetworkExact(server, NetworkWrite(cache, name).value);
    }
  }

  /** Which networks to reconcile after a change to a peer. */
  function MappedNetworks(p: Peer, networks: seq<Network>): seq<string> {
    if p.status.network == "" || networks == [] then []
    else
      var n := networks[|networks| - 1];
      MappedNetworks(p, networks[..|networks| - 1]) + if p.status.network == n.name then [n.name] else []
  }

  method MapPeer(client: Client, p: Peer) returns (reqs: seq<string>)
    ensures forall name :: name in reqs <==>
              p.status.network != "" && name == p.status.network && exists n <- client.cache.networks :: n.name == name
    ensures reqs == MappedNetworks(p, client.cache.networks)
  {
    reqs := [];
    if p.status.network == "" {
      return [];
    }
    var networks := client.cache.networks;
    for i := 0 to |networks|
      invariant forall name :: name in reqs <==> name == p.status.network && exists n <- networks[..i] :: n.name == name
      invariant reqs == MappedNetworks(p, networks[..i])
    {
      assert networks[..i + 1] == networks[..i] + [networks[i]];
      assert networks[..i + 1][..i] == networks[..i];
      if p.status.network == networks[i].name {
        reqs := reqs + [networks[i].name];
      }
    }
    assert networks[..|networks|] == networks;
  }

  class ReconcileNetwork {
    const client: Client

    constructor (client: Client)
      ensures this.client == client
    {
      this.client := client;
    }

    /** Reconciles one network. `pruned` is the list that the source builds without the entries of vanished
        peers and then drops; it is returned here so that it can be spoken about. */
    method Reconcile(name: string) returns (ok: bool, pruned: seq<IPAssignment>)
      modifies client`server
      ensures client.server == NetworkStep(old(client.server), client.cache, name)
      ensures FindNetwork(client.cache.networks, name).Some? ==>
                var n := FindNetwork(client.cache.networks, name).value;
                pruned == Live(NextAllocations(n, client.cache.peers), Members(n.name, client.cache.peers))
      ensures !ok <==> NetworkFails(old(client.server), client.cache, name)
      ensures UniqueNames(NetworkNames(old(client.server).networks)) ==>
                NetworkOutcome(old(client.server), client.cache, name, client.server, ok)
    {
      hide NetworkStored, NetworkCurrent, NetworkOutcome, UniqueNames, CommitNetwork, FindNetwork;
      NetworkOutcomeOf(client.server, client.cache, name);
      pruned := [];
      var instance := client.GetNetwork(name);
      if instance.None? {
        return true, [];
      }
      var network := instance.value;
      var peers := client.cache.peers;

      var networkPeers: set<string> := {};
      var allocatedIPs: map<string, string> := map[];
      var recorded := network.status.allocations;
      for i := 0 to |recorded|
        invariant forall k :: k in allocatedIPs <==> k in AllocationNames(recorded)[..i]
      {
        allocatedIPs := allocatedIPs[recorded[i].name := recorded[i].address];
        assert AllocationNames(recorded)[..i + 1] == AllocationNames(recorded)[..i] + [recorded[i].name];
      }
      assert AllocationNames(recorded)[..|recorded|] == AllocationNames(recorded);

      for i := 0 to |peers|
        invariant network == instance.value.(status := NetworkStatus(NextAllocations(instance.value, peers[..i])))
        invariant networkPeers == Members(network.name, peers[..i])
        invariant client.server == old(client.server)
      {
        var p := peers[i];
        assert peers[..i + 1] == peers[..i] + [p];
        assert peers[..i + 1][..i] == peers[..i];
        if p.status.network != network.name {
          continue;
        }
        networkPeers := networkPeers + {p.meta.name};
        if p.meta.name !in allocatedIPs {
          var allocIP := AllocateIP(p, network);
          if allocIP.Err? {
            continue;
          }
          network := network.(status := NetworkStatus(
                                network.status.allocations + [IPAssignment(p.meta.name, allocIP.value)]));
          continue;
        }
      }
      assert peers[..|peers|] == peers;
      assert network == instance.value.(status := NetworkStatus(NextAllocations(instance.value, peers)));

      pruned := Prune(network.status.allocations, networkPeers);

      if instance.value.status != network.status {
        ok := client.UpdateNetworkStatus(network);
        if !ok {
          return false, pruned;
        }
      }
      return true, pruned;
    }
  }
}
