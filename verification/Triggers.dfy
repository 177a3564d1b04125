/** Which reconciles a change calls for, and which of them the watch handlers request. */
module Triggers {
  import opened Common
  import opened Text
  import opened Api
  import opened ApiServer
  import opened NetworkController
  import opened PeerController
  import opened MeshFacts
  import opened NetworkChoice
  import opened Allocations

  /** The requested names are those of the peers currently in the network. */
  lemma {:induction false} PeersInExact(network: string, peers: seq<Peer>, name: string)
    ensures name in PeersIn(network, peers) <==> exists p <- peers :: p.status.network == network && p.meta.name == name
  {
    if peers != [] {
      var k := |peers| - 1;
      PeersInExact(network, peers[..k], name);
      assert peers == peers[..k] + [peers[k]];
    }
  }

  lemma RequestedExact(network: string, peers: seq<Peer>, p: Peer)
    requires UniqueNames(PeerNames(peers)) && p in peers
    ensures p.meta.name in PeersIn(network, peers) <==> p.status.network == network
  {
    PeersInExact(network, peers, p.meta.name);
    forall r | r in peers && r.meta.name == p.meta.name ensures r == p {
      SameName(peers, r, p);
    }
  }

  // ---- Route bindings ----

  lemma {:induction false} BindingsForAppend(m: ObjectMeta, xs: seq<RouteBinding>, ys: seq<RouteBinding>)
    ensures BindingsFor(m, xs + ys) == BindingsFor(m, xs) + BindingsFor(m, ys)
  {
    if ys == [] {
      assert xs + ys == xs;
    } else {
      var k := |ys| - 1;
      assert (xs + ys)[..|xs| + k] == xs + ys[..k];
      BindingsForAppend(m, xs, ys[..k]);
    }
  }

  lemma {:induction false} RoutesOfAppend(xs: seq<RouteBinding>, ys: seq<RouteBinding>)
    ensures RoutesOf(xs + ys) == RoutesOf(xs) + RoutesOf(ys)
  {
    if ys == [] {
      assert xs + ys == xs;
    } else {
      var k := |ys| - 1;
      assert (xs + ys)[..|xs| + k] == xs + ys[..k];
      RoutesOfAppend(xs, ys[..k]);
    }
  }

  lemma {:induction false} UnselectedBindings(m: ObjectMeta, bindings: seq<RouteBinding>)
    requires forall rr <- bindings :: !Matches(m, rr.selector)
    ensures BindingsFor(m, bindings) == []
  {
    if bindings != [] {
      UnselectedBindings(m, bindings[..|bindings| - 1]);
    }
  }

  /** Replacing bindings `a` by `b` leaves the entry of an unselected peer alone. */
  lemma SameEntry(q: Peer, pre: seq<RouteBinding>, a: seq<RouteBinding>, b: seq<RouteBinding>, post: seq<RouteBinding>)
    requires forall rr <- a + b :: !Matches(q.meta, rr.selector)
    ensures Entry(q, pre + a + post) == Entry(q, pre + b + post)
  {
    forall s | s == a || s == b
      ensures BindingsFor(q.meta, pre + s + post) == BindingsFor(q.meta, pre) + BindingsFor(q.meta, post)
    {
      UnselectedBindings(q.meta, s);
      BindingsForAppend(q.meta, pre + s, post);
      BindingsForAppend(q.meta, pre, s);
    }
  }

  lemma {:induction false} SameEntries(p: Peer, peers: seq<Peer>, bindings: seq<RouteBinding>,
                                       others: seq<RouteBinding>)
    requires forall q <- peers :: Linked(p, q) ==> Entry(q, bindings) == Entry(q, others)
    ensures Entries(p, peers, bindings) == Entries(p, peers, others)
  {
    if peers != [] {
      var k := |peers| - 1;
      assert peers[k] in peers;
      SameEntries(p, peers[..k], bindings, others);
    }
  }

  /** When bindings are created, changed or deleted, and each of them, old or new, selects peers of its own network,
      every peer whose list must be recomputed is requested for one of them. A binding may be moved to another
      network. */
  lemma BindingChangeCovered(peers: seq<Peer>, p: Peer,
                             pre: seq<RouteBinding>, a: seq<RouteBinding>, b: seq<RouteBinding>,
                             post: seq<RouteBinding>)
    requires p in peers
    requires forall rr <- a + b, q <- peers :: Matches(q.meta, rr.selector) ==> q.status.network == rr.network
    requires Mesh(p, peers, pre + a + post) != Mesh(p, peers, pre + b + post)
    ensures exists rr <- a + b :: p.meta.name in PeersIn(rr.network, peers)
  {
    if forall rr <- a + b :: rr.network != p.status.network {
      forall q | q in peers && Linked(p, q) ensures Entry(q, pre + a + post) == Entry(q, pre + b + post) {
        SameEntry(q, pre, a, b, post);
      }
      SameEntries(p, peers, pre + a + post, pre + b + post);
    } else {
      var rr :| rr in a + b && rr.network == p.status.network;
      PeersInExact(rr.network, peers, p.meta.name);
    }
  }

  lemma BindingsAround(m: ObjectMeta, pre: seq<RouteBinding>, mid: seq<RouteBinding>, post: seq<RouteBinding>)
    ensures BindingsFor(m, pre + mid + post) == BindingsFor(m, pre) + BindingsFor(m, mid) + BindingsFor(m, post)
  {
    BindingsForAppend(m, pre + mid, post);
    BindingsForAppend(m, pre, mid);
  }

  lemma RoutesAround(xs: seq<RouteBinding>, rr: RouteBinding, ys: seq<RouteBinding>)
    ensures |RoutesOf(xs + [rr] + ys)| == |RoutesOf(xs + ys)| + |rr.routes|
  {
    RoutesOfAppend(xs + [rr], ys);
    RoutesOfAppend(xs, [rr]);
    RoutesOfAppend(xs, ys);
    assert [rr][..0] == [];
    assert RoutesOf([rr]) == rr.routes;
  }

  lemma LongerEntry(q: Peer, pre: seq<RouteBinding>, rr: RouteBinding, post: seq<RouteBinding>)
    requires Matches(q.meta, rr.selector) && rr.routes != []
    ensures Entry(q, pre + [rr] + post) != Entry(q, pre + post)
  {
    var m := q.meta;
    BindingsAround(m, pre, [rr], post);
    BindingsForAppend(m, pre, post);
    assert [rr][..0] == [];
    assert BindingsFor(m, [rr]) == [rr];
    RoutesAround(BindingsFor(m, pre), rr, BindingsFor(m, post));
    assert |Entry(q, pre + [rr] + post).allowedIPs| == |Entry(q, pre + post).allowedIPs| + |rr.routes|;
  }

  /** A binding with routes changes a computable list exactly when it selects one of the peers on it. */
  lemma BindingChanges(p: Peer, peers: seq<Peer>, pre: seq<RouteBinding>, rr: RouteBinding, post: seq<RouteBinding>)
    requires rr.routes != []
    ensures Mesh(p, peers, pre + [rr] + post) != Mesh(p, peers, pre + post) <==>
              Computable(p, peers) && exists q <- peers :: Linked(p, q) && Matches(q.meta, rr.selector)
  {
    if q :| q in peers && Linked(p, q) && Matches(q.meta, rr.selector) {
      var idx := Places(p, peers);
      var i: nat :| i < |peers| && peers[i] == q;
      EntriesExact(p, peers, pre + [rr] + post);
      EntriesExact(p, peers, pre + post);
      var k :| 0 <= k < |idx| && idx[k] == i;
      LongerEntry(q, pre, rr, post);
      assert Entries(p, peers, pre + [rr] + post)[k] != Entries(p, peers, pre + post)[k];
    } else {
      assert pre + [] + post == pre + post;
      forall q | q in peers && Linked(p, q) ensures Entry(q, pre + [rr] + post) == Entry(q, pre + post) {
        SameEntry(q, pre, [rr], [], post);
      }
      SameEntries(p, peers, pre + [rr] + post, pre + post);
    }
  }

  /** The routes that bindings give to a peer, in order. */
  function RoutesFor(q: Peer, bindings: seq<RouteBinding>): seq<string> {
    RoutesOf(BindingsFor(q.meta, bindings))
  }

  lemma EntryRoutes(q: Peer, bindings: seq<RouteBinding>, others: seq<RouteBinding>)
    ensures Entry(q, bindings) == Entry(q, others) <==> RoutesFor(q, bindings) == RoutesFor(q, others)
  {
    var own := [SplitNetMask(q.status.address).0 + "/32"];
    assert Entry(q, bindings).allowedIPs[1..] == RoutesFor(q, bindings);
    assert Entry(q, others).allowedIPs[1..] == RoutesFor(q, others);
  }

  /** Other bindings change a list exactly when it is computable and some peer on it has other routes. */
  lemma BindingsMatter(p: Peer, peers: seq<Peer>, bindings: seq<RouteBinding>, others: seq<RouteBinding>)
    ensures Mesh(p, peers, bindings) != Mesh(p, peers, others) <==>
              Computable(p, peers) && exists q <- peers ::
                Linked(p, q) && RoutesFor(q, bindings) != RoutesFor(q, others)
  {
    if q :| q in peers && Linked(p, q) && RoutesFor(q, bindings) != RoutesFor(q, others) {
      var idx := Places(p, peers);
      var i: nat :| i < |peers| && peers[i] == q;
      EntriesExact(p, peers, bindings);
      EntriesExact(p, peers, others);
      var k :| 0 <= k < |idx| && idx[k] == i;
      EntryRoutes(q, bindings, others);
      assert Entries(p, peers, bindings)[k] != Entries(p, peers, others)[k];
    } else {
      forall q | q in peers && Linked(p, q) ensures Entry(q, bindings) == Entry(q, others) {
        EntryRoutes(q, bindings, others);
      }
      SameEntries(p, peers, bindings, others);
    }
  }

  /** Creating, changing or deleting bindings requests every affected peer exactly when each peer on a computable list
      whose routes change is in the network that one of these bindings, old or new, names; the code selects peers of
      any network. */
  lemma BindingCoverageExact(peers: seq<Peer>, pre: seq<RouteBinding>, a: seq<RouteBinding>, b: seq<RouteBinding>,
                             post: seq<RouteBinding>)
    requires UniqueNames(PeerNames(peers))
    ensures (forall p <- peers :: Mesh(p, peers, pre + a + post) != Mesh(p, peers, pre + b + post) ==>
               exists rr <- a + b :: p.meta.name in PeersIn(rr.network, peers))
            <==>
            (forall p <- peers, q <- peers ::
               Computable(p, peers) && Linked(p, q) && RoutesFor(q, pre + a + post) != RoutesFor(q, pre + b + post) ==>
               exists rr <- a + b :: rr.network == q.status.network)
  {
    forall p | p in peers
      ensures Mesh(p, peers, pre + a + post) != Mesh(p, peers, pre + b + post) <==>
                && Computable(p, peers)
                && exists q <- peers :: Linked(p, q) && RoutesFor(q, pre + a + post) != RoutesFor(q, pre + b + post)
      ensures (exists rr <- a + b :: p.meta.name in PeersIn(rr.network, peers)) <==>
                exists rr <- a + b :: rr.network == p.status.network
    {
      BindingsMatter(p, peers, pre + a + post, pre + b + post);
      RequestedForOne(p, peers, a + b);
    }
  }

  lemma RequestedForOne(p: Peer, peers: seq<Peer>, bindings: seq<RouteBinding>)
    requires UniqueNames(PeerNames(peers)) && p in peers
    ensures (exists rr <- bindings :: p.meta.name in PeersIn(rr.network, peers)) <==>
              exists rr <- bindings :: rr.network == p.status.network
  {
    forall rr | rr in bindings ensures p.meta.name in PeersIn(rr.network, peers) <==> rr.network == p.status.network {
      RequestedExact(rr.network, peers, p);
    }
  }

  /** Creating or deleting a binding requests every affected peer exactly when each peer it selects that appears on
      a computable list is in the binding's own network; the code selects peers of any network. */
  lemma BindingCreationExact(peers: seq<Peer>, pre: seq<RouteBinding>, rr: RouteBinding, post: seq<RouteBinding>)
    requires rr.routes != [] && UniqueNames(PeerNames(peers))
    ensures (forall p <- peers :: Mesh(p, peers, pre + [rr] + post) != Mesh(p, peers, pre + post) ==>
               p.meta.name in PeersIn(rr.network, peers))
            <==>
            (forall p <- peers, q <- peers :: Computable(p, peers) && Linked(p, q) && Matches(q.meta, rr.selector) ==>
               q.status.network == rr.network)
  {
    forall p | p in peers
      ensures Mesh(p, peers, pre + [rr] + post) != Mesh(p, peers, pre + post) <==>
                Computable(p, peers) && exists q <- peers :: Linked(p, q) && Matches(q.meta, rr.selector)
      ensures p.meta.name in PeersIn(rr.network, peers) <==> p.status.network == rr.network
    {
      BindingChanges(p, peers, pre, rr, post);
      RequestedExact(rr.network, peers, p);
    }
  }

  // ---- Networks ----

  lemma {:induction false} PositionAppend(xs: seq<string>, ys: seq<string>, name: string)
    ensures Position(xs + ys, name) ==
            match Position(xs, name)
            case Some(i) => Some(i)
            case None => (match Position(ys, name) case Some(j) => Some(|xs| + j) case None => None)
  {
    if xs == [] {
      assert xs + ys == ys;
    } else {
      assert (xs + ys)[1..] == xs[1..] + ys;
      PositionAppend(xs[1..], ys, name);
    }
  }

  lemma FindAppend(xs: seq<Network>, ys: seq<Network>, name: string)
    ensures FindNetwork(xs + ys, name) ==
        match FindNetwork(xs, name) { case Some(n) => Some(n) case None => FindNetwork(ys, name) }
  {
    var a, b := NetworkNames(xs), NetworkNames(ys);
    assert NetworkNames(xs + ys) == a + b;
    PositionAppend(a, b, name);
    match (Position(a, name), Position(b, name))
    case (Some(i), _) => assert (xs + ys)[i] == xs[i];
    case (None, Some(j)) => assert (xs + ys)[|xs| + j] == ys[j];
    case (None, None) =>
  }

  lemma FindOther(networks: seq<Network>, name: string)
    requires forall n <- networks :: n.name != name
    ensures FindNetwork(networks, name) == None
  {
    assert forall i :: 0 <= i < |networks| ==> networks[i] in networks && NetworkNames(networks)[i] != name;
  }

  /** A peer of another network does not notice that networks of one name are created, changed or deleted. */
  lemma OtherNetworkUnaffected(network: string, c: Cluster, d: Cluster, p: Peer,
                               pre: seq<Network>, a: seq<Network>, b: seq<Network>, post: seq<Network>)
    requires d == c.(networks := pre + b + post) && c.networks == pre + a + post
    requires forall n <- a + b :: n.name == network
    requires p.status.network != "" && p.status.network != network
    ensures NextStatus(p, c) == NextStatus(p, d)
  {
    var name := p.status.network;
    FindOther(a, name) by {
      assert forall n <- a :: n in a + b;
    }
    FindOther(b, name) by {
      assert forall n <- b :: n in a + b;
    }
    FindAppend(pre + a, post, name);
    FindAppend(pre, a, name);
    FindAppend(pre + b, post, name);
    FindAppend(pre, b, name);
  }

  /** After a change to networks of one name, a peer that reconciles differently is requested exactly when it has a
      network already. */
  lemma AffectedPeerRequested(network: string, c: Cluster, d: Cluster, p: Peer,
                              pre: seq<Network>, a: seq<Network>, b: seq<Network>, post: seq<Network>)
    requires UniqueNames(PeerNames(c.peers)) && p in c.peers && network != ""
    requires d == c.(networks := pre + b + post) && c.networks == pre + a + post
    requires forall n <- a + b :: n.name == network
    requires NextStatus(p, c) != NextStatus(p, d)
    ensures p.meta.name in PeersIn(network, c.peers) <==> p.status.network != ""
  {
    RequestedExact(network, c.peers, p);
    if p.status.network != "" && p.status.network != network {
      OtherNetworkUnaffected(network, c, d, p, pre, a, b, post);
    }
  }

  /** A waiting peer reconciles differently exactly when it would be placed differently. */
  lemma WaitingPeerAffected(c: Cluster, d: Cluster, p: Peer)
    requires p.status.network == ""
    requires forall n <- c.networks + d.networks :: n.name != ""
    ensures NextStatus(p, c) != NextStatus(p, d) <==> ChosenName(p.meta, c.networks) != ChosenName(p.meta, d.networks)
  {
    ChosenNetworkGrants(p.meta, c.networks);
    ChosenNetworkGrants(p.meta, d.networks);
  }

  /** Creating, changing or deleting a network requests every peer that reconciles differently exactly when no waiting
      peer would be placed differently: the handler looks only at peers that are in the network already. */
  lemma NetworkCoverageExact(network: string, c: Cluster, d: Cluster,
                             pre: seq<Network>, a: seq<Network>, b: seq<Network>, post: seq<Network>)
    requires UniqueNames(PeerNames(c.peers)) && network != ""
    requires d == c.(networks := pre + b + post) && c.networks == pre + a + post
    requires forall n <- a + b :: n.name == network
    requires forall n <- c.networks + d.networks :: n.name != ""
    ensures (forall p <- c.peers :: NextStatus(p, c) != NextStatus(p, d) ==> p.meta.name in PeersIn(network, c.peers))
            <==>
            (forall p <- c.peers :: p.status.network == "" ==>
               ChosenName(p.meta, c.networks) == ChosenName(p.meta, d.networks))
  {
    forall p | p in c.peers && NextStatus(p, c) != NextStatus(p, d)
      ensures p.meta.name in PeersIn(network, c.peers) <==> p.status.network != ""
    {
      AffectedPeerRequested(network, c, d, p, pre, a, b, post);
    }
    forall p | p in c.peers && p.status.network == ""
      ensures NextStatus(p, c) != NextStatus(p, d) <==> ChosenName(p.meta, c.networks) != ChosenName(p.meta, d.networks)
    {
      WaitingPeerAffected(c, d, p);
    }
  }

  lemma {:induction false} SelectingAppend(m: ObjectMeta, xs: seq<Network>, ys: seq<Network>)
    ensures Selecting(m, xs + ys) == Selecting(m, xs) + Selecting(m, ys)
  {
    if ys == [] {
      assert xs + ys == xs;
    } else {
      var k := |ys| - 1;
      assert (xs + ys)[..|xs| + k] == xs + ys[..k];
      SelectingAppend(m, xs, ys[..k]);
    }
  }

  /** A waiting peer that would be placed differently reconciles differently, and is not requested. */
  lemma WaitingPeerMissed(network: string, c: Cluster, d: Cluster, p: Peer)
    requires UniqueNames(PeerNames(c.peers)) && p in c.peers && p.status.network == "" && network != ""
    requires forall n <- c.networks + d.networks :: n.name != ""
    requires ChosenName(p.meta, c.networks) != ChosenName(p.meta, d.networks)
    ensures NextStatus(p, c) != NextStatus(p, d) && p.meta.name !in PeersIn(network, c.peers)
  {
    WaitingPeerAffected(c, d, p);
    RequestedExact(network, c.peers, p);
  }

  /** The creation of a network is the plainest miss: a waiting peer that it would place is not requested. */
  lemma CreationMissesWaitingPeers(c: Cluster, p: Peer, n: Network)
    requires UniqueNames(PeerNames(c.peers)) && p in c.peers && p.status.network == "" && n.name != ""
    requires ChooseNetwork(p.meta, c.networks) == Ok(None) && Selects(n, p.meta)
    ensures NextStatus(p, c) == Ok(p.status)
    ensures NextStatus(p, c.(networks := c.networks + [n])) == Ok(p.status.(network := n.name))
    ensures p.meta.name !in PeersIn(n.name, c.peers)
  {
    SelectingAppend(p.meta, c.networks, [n]);
    assert [n][..0] == [];
    assert Selecting(p.meta, [n]) == [n];
    RequestedExact(n.name, c.peers, p);
  }

  // ---- Peers ----

  lemma {:induction false} MappedExact(p: Peer, networks: seq<Network>, name: string)
    ensures name in MappedNetworks(p, networks) <==>
              p.status.network != "" && p.status.network == name && exists n <- networks :: n.name == name
  {
    if networks != [] {
      var k := |networks| - 1;
      MappedExact(p, networks[..k], name);
      assert networks == networks[..k] + [networks[k]];
    }
  }

  lemma {:induction false} FreshAppend(n: Network, xs: seq<Peer>, ys: seq<Peer>)
    ensures Fresh(n, xs + ys) == Fresh(n, xs) + Fresh(n, ys)
  {
    if ys == [] {
      assert xs + ys == xs;
    } else {
      var k := |ys| - 1;
      assert (xs + ys)[..|xs| + k] == xs + ys[..k];
      FreshAppend(n, xs, ys[..k]);
    }
  }

  /** When peers are created, changed or deleted, every network that would allocate differently is requested for
      one of the old or new versions. */
  lemma PeerChangeCovered(networks: seq<Network>, n: Network,
                          pre: seq<Peer>, a: seq<Peer>, b: seq<Peer>, post: seq<Peer>)
    requires n in networks && n.name != ""
    requires NextAllocations(n, pre + a + post) != NextAllocations(n, pre + b + post)
    ensures exists p <- a + b :: n.name in MappedNetworks(p, networks)
  {
    if forall p <- a + b :: p.status.network != n.name {
      NoGains(n, a) by {
        assert forall p <- a :: p in a + b;
      }
      NoGains(n, b) by {
        assert forall p <- b :: p in a + b;
      }
      FreshAppend(n, pre + a, post);
      FreshAppend(n, pre, a);
      FreshAppend(n, pre + b, post);
      FreshAppend(n, pre, b);
    } else {
      var p :| p in a + b && p.status.network == n.name;
      MappedExact(p, networks, n.name);
    }
  }

  // ---- A changed peer and the lists of others ----

  /** What `q` makes of `p` when it computes its list: an entry, nothing, or a failure. */
  function ListedAs(q: Peer, p: Peer, bindings: seq<RouteBinding>): Result<seq<PeerConfiguration>> {
    if !Neighbour(q, p) then Ok([])
    else if !Splits(p.spec.endpoint) then Err
    else if Linked(q, p) then Ok([Entry(p, bindings)])
    else Ok([])
  }

  lemma EntriesOne(q: Peer, p: Peer, bindings: seq<RouteBinding>)
    ensures Entries(q, [p], bindings) == if Linked(q, p) then [Entry(p, bindings)] else []
  {
    assert [p][..0] == [];
  }

  lemma MeshAround(q: Peer, pre: seq<Peer>, p: Peer, post: seq<Peer>, bindings: seq<RouteBinding>)
    ensures Mesh(q, pre + [p] + post, bindings) ==
            if !Computable(q, pre + post) then Err
            else match ListedAs(q, p, bindings)
                 case Err => Err
                 case Ok(own) => Ok(Entries(q, pre, bindings) + own + Entries(q, post, bindings))
  {
    EntriesAppend(q, pre + [p], post, bindings);
    EntriesAppend(q, pre, [p], bindings);
    EntriesOne(q, p, bindings);
    assert forall r :: r in pre + [p] + post <==> r in pre + post || r == p;
  }

  /** A peer's list does not notice the change of another peer exactly when it cannot be computed anyway, or it makes
      the same of the old and the new one. */
  lemma ReplacementNoticed(q: Peer, pre: seq<Peer>, p: Peer, p': Peer, post: seq<Peer>, bindings: seq<RouteBinding>)
    ensures Mesh(q, pre + [p] + post, bindings) == Mesh(q, pre + [p'] + post, bindings) <==>
              (Computable(q, pre + post) ==> ListedAs(q, p, bindings) == ListedAs(q, p', bindings))
  {
    MeshAround(q, pre, p, post, bindings);
    MeshAround(q, pre, p', post, bindings);
    var l, r := Entries(q, pre, bindings), Entries(q, post, bindings);
    if ListedAs(q, p, bindings).Ok? && ListedAs(q, p', bindings).Ok? {
      MiddleMatters(l, ListedAs(q, p, bindings).value, ListedAs(q, p', bindings).value, r);
    }
  }

  lemma MiddleMatters(l: seq<PeerConfiguration>, m: seq<PeerConfiguration>, m': seq<PeerConfiguration>,
                      r: seq<PeerConfiguration>)
    ensures l + m + r == l + m' + r <==> m == m'
  {
    if l + m + r == l + m' + r {
      assert |m| == |m'|;
      forall i | 0 <= i < |m| ensures m[i] == m'[i] {
        assert (l + m + r)[|l| + i] == m[i] && (l + m' + r)[|l| + i] == m'[i];
      }
    }
  }

  /** A change to a peer makes the peer controller reconcile that peer only. Nobody else's list needs it exactly when
      each other peer with an otherwise computable list makes the same of the old and the new version: the same key,
      endpoint to dial, host address and routes if the two can be linked, and neither of them failing otherwise. */
  lemma OwnRequestSuffices(pre: seq<Peer>, p: Peer, p': Peer, post: seq<Peer>, bindings: seq<RouteBinding>)
    ensures (forall q <- pre + post :: Mesh(q, pre + [p] + post, bindings) == Mesh(q, pre + [p'] + post, bindings))
            <==>
            (forall q <- pre + post :: Computable(q, pre + post) ==>
              ListedAs(q, p, bindings) == ListedAs(q, p', bindings))
  {
    forall q | q in pre + post
      ensures Mesh(q, pre + [p] + post, bindings) == Mesh(q, pre + [p'] + post, bindings) <==>
                (Computable(q, pre + post) ==> ListedAs(q, p, bindings) == ListedAs(q, p', bindings))
    {
      ReplacementNoticed(q, pre, p, p', post, bindings);
    }
  }
}
