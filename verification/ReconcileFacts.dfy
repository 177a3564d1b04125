/** What the functions behind the reconciles and handlers mean, case by case. */
module ReconcileFacts {
  import opened Common
  import opened Api
  import opened ApiServer
  import opened NetworkController
  import opened PeerController
  import opened NetworkChoice
  import Triggers

  // ---- Reconciling a peer ----

  /** Placing: the only selecting network is taken; with none or several the status stays as it is. */
  lemma PlacingExact(p: Peer, cache: Cluster)
    requires p.status.network == ""
    ensures forall i: nat :: Only(p.meta, cache.networks, i) ==>
              NextStatus(p, cache) == Ok(p.status.(network := cache.networks[i].name))
    ensures (forall i: nat :: !Only(p.meta, cache.networks, i)) ==> NextStatus(p, cache) == Ok(p.status)
  {
    ChoiceExact(p.meta, cache.networks);
  }

  lemma FoundExact(networks: seq<Network>, n: Network)
    requires UniqueNames(NetworkNames(networks)) && n in networks
    ensures FindNetwork(networks, n.name) == Some(n)
  {
    var j: nat :| j < |networks| && networks[j] == n;
    PositionUnique(NetworkNames(networks), j);
  }

  lemma RecordedFirst(allocations: seq<IPAssignment>, name: string, k: nat)
    requires k < |allocations| && allocations[k].name == name
    requires forall j :: 0 <= j < k ==> allocations[j].name != name
    ensures Recorded(allocations, name) == Some(allocations[k].address)
  {
    var names := AllocationNames(allocations);
    assert names[k] == name;
    assert forall j :: 0 <= j < k ==> names[j] != name;
  }

  /** Addressing: the first entry under the peer's name gives the address; without one the status stays as it is. */
  lemma AddressingExact(p: Peer, cache: Cluster, n: Network)
    requires UniqueNames(NetworkNames(cache.networks)) && n in cache.networks
    requires p.status.network == n.name != "" && p.status.address == ""
    ensures var all := n.status.allocations;
            && (forall k :: 0 <= k < |all| && all[k].name == p.meta.name
                            && (forall j :: 0 <= j < k ==> all[j].name != p.meta.name) ==>
                  NextStatus(p, cache) == Ok(p.status.(address := all[k].address)))
            && ((forall a <- all :: a.name != p.meta.name) ==> NextStatus(p, cache) == Ok(p.status))
  {
    var all := n.status.allocations;
    FoundExact(cache.networks, n);
    forall k | 0 <= k < |all| && all[k].name == p.meta.name && (forall j :: 0 <= j < k ==> all[j].name != p.meta.name)
      ensures Recorded(all, p.meta.name) == Some(all[k].address)
    {
      RecordedFirst(all, p.meta.name, k);
    }
    if Recorded(all, p.meta.name).Some? {
      assert all[Position(AllocationNames(all), p.meta.name).value] in all;
    }
  }

  /** Computing: the list is replaced, or the reconcile fails on an endpoint that does not split. */
  lemma ComputingExact(p: Peer, cache: Cluster, n: Network)
    requires UniqueNames(NetworkNames(cache.networks)) && n in cache.networks
    requires p.status.network == n.name != "" && p.status.address != ""
    ensures NextStatus(p, cache) ==
            if Computable(p, cache.peers) then Ok(p.status.(peers := Entries(p, cache.peers, cache.bindings))) else Err
  {
    FoundExact(cache.networks, n);
  }

  /** A peer whose network is not there any more is left alone, addressed or not. */
  lemma MissingNetworkExact(p: Peer, cache: Cluster)
    requires p.status.network != "" && forall n <- cache.networks :: n.name != p.status.network
    ensures NextStatus(p, cache) == Ok(p.status)
  {
    Triggers.FindOther(cache.networks, p.status.network);
  }

  /** The object that is written is the one that was read, with the new status, and only if that is a change. */
  lemma WrittenPeerExact(seen: seq<Peer>, cache: Cluster, i: nat)
    requires UniqueNames(PeerNames(seen)) && i < |seen|
    ensures var s := NextStatus(seen[i], cache);
            PeerWrite(seen, cache, seen[i].meta.name) ==
            if s.Ok? && s.value != seen[i].status then Some(seen[i].(status := s.value)) else None
  {
    PositionUnique(PeerNames(seen), i);
  }

  lemma UnknownPeerIgnored(seen: seq<Peer>, cache: Cluster, name: string)
    requires forall p <- seen :: p.meta.name != name
    ensures PeerWrite(seen, cache, name) == None
  {
    assert forall i :: 0 <= i < |seen| ==> seen[i] in seen && PeerNames(seen)[i] != name;
  }

  /** A network selects a peer through any of its rules, whether or not that rule names an address. */
  lemma SelectsExact(n: Network, m: ObjectMeta)
    ensures Selects(n, m) <==> exists r <- n.spec.allocations :: r.selector.None? || Matches(m, r.selector.value)
  {
    if r :| r in n.spec.allocations && (r.selector.None? || Matches(m, r.selector.value)) {
      var i :| 0 <= i < |n.spec.allocations| && n.spec.allocations[i] == r;
      assert RuleMatches(m, n.spec.allocations[i]);
    }
  }

  // ---- Reconciling a network ----

  /** The network is written with the new entries behind the stored ones, and only if there are any. */
  lemma WrittenNetworkExact(cache: Cluster, n: Network)
    requires UniqueNames(NetworkNames(cache.networks)) && n in cache.networks
    ensures var added := Fresh(n, cache.peers);
            NetworkWrite(cache, n.name) ==
            if added == [] then None else Some(n.(status := NetworkStatus(n.status.allocations + added)))
  {
    FoundExact(cache.networks, n);
    assert |n.status.allocations + Fresh(n, cache.peers)| == |n.status.allocations| + |Fresh(n, cache.peers)|;
  }

  lemma MembersExact(network: string, peers: seq<Peer>, name: string)
    ensures name in Members(network, peers) <==> exists p <- peers :: p.status.network == network && p.meta.name == name
  {
  }

  // ---- Lists in order ----

  /** The routes of a peer's entry stand in the order of the bindings and of the routes in each. */
  lemma RoutesInOrder(m: ObjectMeta, pre: seq<RouteBinding>, rr: RouteBinding, post: seq<RouteBinding>)
    ensures RoutesOf(BindingsFor(m, [])) == []
    ensures RoutesOf(BindingsFor(m, pre + [rr] + post)) ==
            RoutesOf(BindingsFor(m, pre))
            + (if Matches(m, rr.selector) then rr.routes else [])
            + RoutesOf(BindingsFor(m, post))
  {
    Triggers.BindingsAround(m, pre, [rr], post);
    var l, mid, r := BindingsFor(m, pre), BindingsFor(m, [rr]), BindingsFor(m, post);
    assert [rr][..0] == [];
    assert mid == if Matches(m, rr.selector) then [rr] else [];
    Triggers.RoutesOfAppend(l + mid, r);
    Triggers.RoutesOfAppend(l, mid);
    assert RoutesOf([rr]) == rr.routes;
  }

  /** Entries are appended in the order of the peer list, one for each member without one that some rule matches. */
  lemma FreshInOrder(n: Network, pre: seq<Peer>, p: Peer, post: seq<Peer>)
    ensures Fresh(n, []) == []
    ensures var address := AssignedAddress(p.meta, n.spec.allocations);
            Fresh(n, pre + [p] + post) ==
            Fresh(n, pre)
            + (if p.status.network == n.name && p.meta.name !in AllocationNames(n.status.allocations) && address.Some?
               then [IPAssignment(p.meta.name, address.value)] else [])
            + Fresh(n, post)
  {
    Triggers.FreshAppend(n, pre + [p], post);
    Triggers.FreshAppend(n, pre, [p]);
    assert [p][..0] == [];
  }

  lemma {:induction false} LiveAppend(xs: seq<IPAssignment>, ys: seq<IPAssignment>, names: set<string>)
    ensures Live(xs + ys, names) == Live(xs, names) + Live(ys, names)
  {
    if ys == [] {
      assert xs + ys == xs;
    } else {
      var k := |ys| - 1;
      assert (xs + ys)[..|xs| + k] == xs + ys[..k];
      LiveAppend(xs, ys[..k], names);
    }
  }

  /** The dropped list holds the entries of listed members, in the order of the stored one. */
  lemma LiveInOrder(pre: seq<IPAssignment>, a: IPAssignment, post: seq<IPAssignment>, names: set<string>)
    ensures Live([], names) == []
    ensures Live(pre + [a] + post, names) ==
            Live(pre, names) + (if a.name in names then [a] else []) + Live(post, names)
  {
    LiveAppend(pre + [a], post, names);
    LiveAppend(pre, [a], names);
    assert [a][..0] == [];
  }

  lemma {:induction false} PeersInAppend(network: string, xs: seq<Peer>, ys: seq<Peer>)
    ensures PeersIn(network, xs + ys) == PeersIn(network, xs) + PeersIn(network, ys)
  {
    if ys == [] {
      assert xs + ys == xs;
    } else {
      var k := |ys| - 1;
      assert (xs + ys)[..|xs| + k] == xs + ys[..k];
      PeersInAppend(network, xs, ys[..k]);
    }
  }

  /** Each listed peer of the network is requested once, in list order. */
  lemma RequestsInOrder(network: string, pre: seq<Peer>, p: Peer, post: seq<Peer>)
    ensures PeersIn(network, []) == []
    ensures PeersIn(network, pre + [p] + post) ==
            PeersIn(network, pre) + (if p.status.network == network then [p.meta.name] else []) + PeersIn(network, post)
  {
    PeersInAppend(network, pre + [p], post);
    PeersInAppend(network, pre, [p]);
    assert [p][..0] == [];
  }
}
