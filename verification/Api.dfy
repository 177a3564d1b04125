/** The kubewg API objects (one namespace) and the selector shared by all matching sites. */
module Api {
  import opened Common

  datatype ObjectMeta = ObjectMeta(name: string, labels: map<string, string>)

  datatype PeerSelector = PeerSelector(names: seq<string>, matchLabels: map<string, string>)

  datatype PeerSpec = PeerSpec(publicKey: string, endpoint: string)

  datatype PeerConfiguration =
    PeerConfiguration(name: string, publicKey: string, endpoint: string, allowedIPs: seq<string>)

  datatype PeerStatus = PeerStatus(address: string, network: string, peers: seq<PeerConfiguration>)

  /** `version` is the resource version that the API server compares on update. */
  datatype Peer = Peer(meta: ObjectMeta, version: nat, spec: PeerSpec, status: PeerStatus)

  datatype AllocationRule = AllocationRule(address: Option<string>, selector: Option<PeerSelector>)

  datatype NetworkSpec = NetworkSpec(subnet: string, allocations: seq<AllocationRule>)

  datatype IPAssignment = IPAssignment(name: string, address: string)

  datatype NetworkStatus = NetworkStatus(allocations: seq<IPAssignment>)

  datatype Network = Network(name: string, version: nat, spec: NetworkSpec, status: NetworkStatus)

  datatype RouteBinding =
    RouteBinding(name: string, routes: seq<string>, selector: PeerSelector, network: string)

  const EMPTY_STATUS := PeerStatus("", "", [])

  /** What a selector means: the peer is named, or a non-empty label set is contained in the peer's labels. */
  predicate Matches(m: ObjectMeta, sel: PeerSelector) {
    || m.name in sel.names
    || (sel.matchLabels != map[]
        && forall k <- sel.matchLabels :: k in m.labels && m.labels[k] == sel.matchLabels[k])
  }

  /** Labels match as pairs of key and value. */
  lemma MatchesExact(m: ObjectMeta, sel: PeerSelector)
    ensures Matches(m, sel) <==>
              m.name in sel.names || (sel.matchLabels.Items != {} && sel.matchLabels.Items <= m.labels.Items)
  {
    var wanted, labels := sel.matchLabels, m.labels;
    if k :| k in wanted {
      assert (k, wanted[k]) in wanted.Items;
    }
    if forall k <- wanted :: k in labels && labels[k] == wanted[k] {
      forall kv | kv in wanted.Items ensures kv in labels.Items {
        assert kv.0 in wanted && wanted[kv.0] == kv.1;
      }
    }
    if wanted.Items <= labels.Items {
      forall k | k in wanted ensures k in labels && labels[k] == wanted[k] {
        assert (k, wanted[k]) in wanted.Items;
      }
    }
  }

  /** Go ranges over a map in an unspecified order; the order drawn here is arbitrary too. */
  method PeerMatchesSelector(p: Peer, sel: PeerSelector) returns (matches: bool)
    ensures matches <==>
              || p.meta.name in sel.names
              || (sel.matchLabels.Items != {} && sel.matchLabels.Items <= p.meta.labels.Items)
    ensures matches <==> Matches(p.meta, sel)
  {
    MatchesExact(p.meta, sel);
    for i := 0 to |sel.names|
      invariant p.meta.name !in sel.names[..i]
    {
      if p.meta.name == sel.names[i] {
        return true;
      }
    }
    assert sel.names[..|sel.names|] == sel.names;
    if |sel.matchLabels| == 0 {
      return false;
    }
    assert sel.matchLabels != map[];
    var found := true;
    var rest := sel.matchLabels.Keys;
    while rest != {}
      invariant rest <= sel.matchLabels.Keys
      invariant found
      invariant forall k <- sel.matchLabels.Keys - rest :: k in p.meta.labels && p.meta.labels[k] == sel.matchLabels[k]
      decreases |rest|
    {
      var k :| k in rest;
      if k !in p.meta.labels || sel.matchLabels[k] != p.meta.labels[k] {
        found := false;
        break;
      }
      rest := rest - {k};
    }
    if found {
      return true;
    }
    return false;
  }

  /** A rule without a selector matches every peer. */
  predicate RuleMatches(m: ObjectMeta, rule: AllocationRule) {
    rule.selector.None? || Matches(m, rule.selector.value)
  }

  method MatchesRule(p: Peer, rule: AllocationRule) returns (matches: bool)
    ensures rule.selector.None? ==> matches
    ensures rule.selector.Some? ==>
              var sel := rule.selector.value;
              matches <==>
                || p.meta.name in sel.names
                || (sel.matchLabels.Items != {} && sel.matchLabels.Items <= p.meta.labels.Items)
    ensures matches <==> RuleMatches(p.meta, rule)
  {
    if rule.selector.None? {
      return true;
    }
    matches := PeerMatchesSelector(p, rule.selector.value);
  }

  predicate UniqueNames(names: seq<string>) {
    forall i, j :: 0 <= i < j < |names| ==> names[i] != names[j]
  }

  function Position(names: seq<string>, name: string): (r: Option<nat>)
    ensures r.Some? ==> r.value < |names| && names[r.value] == name
    ensures r.Some? ==> forall i :: 0 <= i < r.value ==> names[i] != name
    ensures r.None? <==> name !in names
  {
    if names == [] then None
    else if names[0] == name then Some(0)
    else
      match Position(names[1..], name)
      case None => None
      case Some(i) =>
        Some(i + 1)
  }

  lemma PositionUnique(names: seq<string>, i: nat)
    requires UniqueNames(names) && i < |names|
    ensures Position(names, names[i]) == Some(i)
  {
    assert names[i] in names;
  }

  function PeerNames(peers: seq<Peer>): (names: seq<string>)
    ensures |names| == |peers|
  {
    seq(|peers|, i requires 0 <= i < |peers| => peers[i].meta.name)
  }

  function NetworkNames(networks: seq<Network>): (names: seq<string>)
    ensures |names| == |networks|
  {
    seq(|networks|, i requires 0 <= i < |networks| => networks[i].name)
  }

  function AllocationNames(allocations: seq<IPAssignment>): (names: seq<string>)
    ensures |names| == |allocations|
  {
    seq(|allocations|, i requires 0 <= i < |allocations| => allocations[i].name)
  }

  function FindPeer(peers: seq<Peer>, name: string): Option<Peer> {
    match Position(PeerNames(peers), name)
    case None => None
    case Some(i) => Some(peers[i])
  }

  function FindNetwork(networks: seq<Network>, name: string): Option<Network> {
    match Position(NetworkNames(networks), name)
    case None => None
    case Some(i) => Some(networks[i])
  }

  /** The first recorded address of a name, if any. */
  function Recorded(allocations: seq<IPAssignment>, name: string): Option<string> {
    match Position(AllocationNames(allocations), name)
    case None => None
    case Some(i) => Some(allocations[i].address)
  }
}

/** The API server reduced to a store that updates a status only if the writer saw the current version. */
module ApiServer {
  import opened Common
  import opened Api

  /** `clock` is the source of fresh resource versions. */
  datatype Cluster =
    Cluster(peers: seq<Peer>, networks: seq<Network>, bindings: seq<RouteBinding>, clock: nat)

  /** `Status().Update` of a peer: refused on a missing object or a version conflict. */
  function CommitPeer(c: Cluster, p: Peer): Option<Cluster> {
    match Position(PeerNames(c.peers), p.meta.name)
    case None => None
    case Some(i) =>
      if c.peers[i].version != p.version then None
      else Some(PutPeer(c, i, p.status))
  }

  function PutPeer(c: Cluster, i: nat, status: PeerStatus): Cluster
    requires i < |c.peers|
  {
    c.(peers := c.peers[i := c.peers[i].(status := status, version := c.clock + 1)], clock := c.clock + 1)
  }

  function CommitNetwork(c: Cluster, n: Network): Option<Cluster> {
    match Position(NetworkNames(c.networks), n.name)
    case None => None
    case Some(i) =>
      if c.networks[i].version != n.version then None
      else Some(PutNetwork(c, i, n.status))
  }

  function PutNetwork(c: Cluster, i: nat, status: NetworkStatus): Cluster
    requires i < |c.networks|
  {
    c.(networks := c.networks[i := c.networks[i].(status := status, version := c.clock + 1)], clock := c.clock + 1)
  }

  /** `d` is `c` after storing the status of `p`, whose version is then above the clock of `c`. */
  ghost predicate PeerStored(c: Cluster, p: Peer, d: Cluster) {
    && d.networks == c.networks && d.bindings == c.bindings && d.clock > c.clock
    && |d.peers| == |c.peers|
    && forall i :: 0 <= i < |c.peers| ==>
         d.peers[i] == if c.peers[i].meta.name == p.meta.name
                       then c.peers[i].(status := p.status, version := d.clock) else c.peers[i]
  }

  ghost predicate NetworkStored(c: Cluster, n: Network, d: Cluster) {
    && d.peers == c.peers && d.bindings == c.bindings && d.clock > c.clock
    && |d.networks| == |c.networks|
    && forall i :: 0 <= i < |c.networks| ==>
         d.networks[i] == if c.networks[i].name == n.name
                          then c.networks[i].(status := n.status, version := d.clock) else c.networks[i]
  }

  /** Is an object of this name and version stored? */
  ghost predicate PeerCurrent(c: Cluster, p: Peer) {
    exists q <- c.peers :: q.meta.name == p.meta.name && q.version == p.version
  }

  ghost predicate NetworkCurrent(c: Cluster, n: Network) {
    exists m <- c.networks :: m.name == n.name && m.version == n.version
  }

  /** An update is accepted exactly when the stored object has the version that was read; it then replaces the status
      of that object only. */
  lemma CommitPeerExact(c: Cluster, p: Peer)
    requires UniqueNames(PeerNames(c.peers))
    ensures CommitPeer(c, p).Some? <==> PeerCurrent(c, p)
    ensures CommitPeer(c, p).Some? ==> PeerStored(c, p, CommitPeer(c, p).value)
  {
    var names := PeerNames(c.peers);
    if q :| q in c.peers && q.meta.name == p.meta.name {
      var k: nat :| k < |c.peers| && c.peers[k] == q;
      PositionUnique(names, k);
      forall i | 0 <= i < |c.peers| && i != k ensures c.peers[i].meta.name != q.meta.name {
        assert names[i] != names[k];
      }
    }
  }

  lemma CommitNetworkExact(c: Cluster, n: Network)
    requires UniqueNames(NetworkNames(c.networks))
    ensures CommitNetwork(c, n).Some? <==> NetworkCurrent(c, n)
    ensures CommitNetwork(c, n).Some? ==> NetworkStored(c, n, CommitNetwork(c, n).value)
  {
    var names := NetworkNames(c.networks);
    if m :| m in c.networks && m.name == n.name {
      var k: nat :| k < |c.networks| && c.networks[k] == m;
      PositionUnique(names, k);
      forall i | 0 <= i < |c.networks| && i != k ensures c.networks[i].name != m.name {
        assert names[i] != names[k];
      }
    }
  }

  /** A controller's client: a single peer is looked up in `seen`, other reads are answered from `cache`; both may lag
      behind `server`, to which writes go. */
  class Client {
    var server: Cluster
    var seen: seq<Peer>
    var cache: Cluster

    constructor (server: Cluster, seen: seq<Peer>, cache: Cluster)
      ensures this.server == server && this.seen == seen && this.cache == cache
    {
      this.server, this.seen, this.cache := server, seen, cache;
    }

    method GetPeer(name: string) returns (p: Option<Peer>)
      ensures p == FindPeer(seen, name)
    {
      p := FindPeer(seen, name);
    }

    method GetNetwork(name: string) returns (n: Option<Network>)
      ensures n == FindNetwork(cache.networks, name)
    {
      n := FindNetwork(cache.networks, name);
    }

    method UpdatePeerStatus(p: Peer) returns (ok: bool)
      modifies this`server
      ensures UniqueNames(PeerNames(old(server).peers)) ==>
                if PeerCurrent(old(server), p) then ok && PeerStored(old(server), p, server)
                else !ok && server == old(server)
      ensures ok <==> CommitPeer(old(server), p).Some?
      ensures server == CommitPeer(old(server), p).GetOr(old(server))
    {
      if UniqueNames(PeerNames(server.peers)) {
        CommitPeerExact(server, p);
      }
      var next := CommitPeer(server, p);
      ok := next.Some?;
      server := next.GetOr(server);
    }

    method UpdateNetworkStatus(n: Network) returns (ok: bool)
      modifies this`server
      ensures UniqueNames(NetworkNames(old(server).networks)) ==>
                if NetworkCurrent(old(server), n) then ok && NetworkStored(old(server), n, server)
                else !ok && server == old(server)
      ensures ok <==> CommitNetwork(old(server), n).Some?
      ensures server == CommitNetwork(old(server), n).GetOr(old(server))
    {
      if UniqueNames(NetworkNames(server.networks)) {
        CommitNetworkExact(server, n);
      }
      var next := CommitNetwork(server, n);
      ok := next.Some?;
      server := next.GetOr(server);
    }
  }
}
