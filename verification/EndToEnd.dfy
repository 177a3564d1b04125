/** The controllers, the routing they produce and the printers put together. */
module EndToEnd {
  import opened Common
  import opened Text
  import opened ApiServer
  import opened PeerController
  import opened Runs
  import opened Convergence
  import Reachability
  import StaleConvergence
  import StaleReads
  import Guardlet
  import MeshFacts

  /** At rest, the list stored for a member is the one computed over the placed peers. */
  lemma FinalList(c0: Cluster, c: Cluster, network: string, a: nat)
    requires SameSpecs(c0, c) && Final(c0, c) && a < |c.peers| && network != ""
    requires Reachability.Member(network, Placed(c0), Placed(c0)[a]) && Computable(Placed(c0)[a], Placed(c0))
    ensures Mesh(Placed(c0)[a], Placed(c0), c0.bindings) == Ok(c.peers[a].status.peers)
    ensures MeshFacts.SameView(Placed(c0)[a], c.peers[a])
  {
  }

  lemma FinalDelivers(c0: Cluster, c: Cluster, network: string, hub: nat, s: nat, d: nat)
    requires SameSpecs(c0, c) && Final(c0, c) && hub < |c.peers| && s < |c.peers| && d < |c.peers| && network != ""
    requires Reachability.HasHub(network, Placed(c0), c0.bindings, Placed(c0)[hub])
    requires Reachability.Member(network, Placed(c0), Placed(c0)[s])
    requires Reachability.Member(network, Placed(c0), Placed(c0)[d])
    requires Placed(c0)[s] != Placed(c0)[d]
    ensures Reachability.Delivers(c.peers[s].status.peers, c.peers[hub].status.peers, c.peers[d].status.peers,
                                  c.peers[s], c.peers[hub], c.peers[d])
  {
    var peers := Placed(c0);
    Reachability.MembersCompute(network, peers, c0.bindings, peers[hub], peers[s]);
    Reachability.MembersCompute(network, peers, c0.bindings, peers[hub], peers[d]);
    Reachability.MembersCompute(network, peers, c0.bindings, peers[hub], peers[hub]);
    FinalList(c0, c, network, hub);
    FinalList(c0, c, network, s);
    FinalList(c0, c, network, d);
    Reachability.HubReachability(network, peers, c0.bindings, peers[hub], peers[s], peers[d]);
    Reachability.DeliversSameView(c.peers[s].status.peers, c.peers[hub].status.peers, c.peers[d].status.peers,
                                  peers[s], peers[hub], peers[d], c.peers[s], c.peers[hub], c.peers[d]);
  }

  /** From empty statuses, after four fair rounds of reconciles in any order, the lists stored for any two members of a
      network with a hub carry traffic between them in both directions. */
  lemma FairRoundsDeliver(c0: Cluster, place: seq<Event>, allocate: seq<Event>, address: seq<Event>,
                          compute: seq<Event>,
                          network: string, hub: nat, s: nat, d: nat)
    requires Pristine(c0)
    requires Covers(c0, 1, place) && Covers(c0, 2, allocate) && Covers(c0, 3, address) && Covers(c0, 4, compute)
    requires hub < |c0.peers| && s < |c0.peers| && d < |c0.peers| && network != ""
    requires Reachability.HasHub(network, Placed(c0), c0.bindings, Placed(c0)[hub])
    requires Reachability.Member(network, Placed(c0), Placed(c0)[s])
    requires Reachability.Member(network, Placed(c0), Placed(c0)[d])
    requires Placed(c0)[s] != Placed(c0)[d]
    ensures var c := Run(c0, place + allocate + address + compute);
            && SameSpecs(c0, c) && Quiescent(c)
            && Reachability.Delivers(c.peers[s].status.peers, c.peers[hub].status.peers, c.peers[d].status.peers,
                                     c.peers[s], c.peers[hub], c.peers[d])
  {
    FourRoundsConverge(c0, place, allocate, address, compute);
    FinalDelivers(c0, Run(c0, place + allocate + address + compute), network, hub, s, d);
  }

  /** However old the lists that reconciles read on the way: at rest, the stored lists carry traffic between any two
      members of a network with a hub. */
  lemma RestDelivers(h: StaleReads.History, network: string, hub: nat, s: nat, d: nat)
    requires StaleConvergence.Execution(h) && Quiescent(StaleReads.Current(h))
    requires hub < |h[0].peers| && s < |h[0].peers| && d < |h[0].peers| && network != ""
    requires Reachability.HasHub(network, Placed(h[0]), h[0].bindings, Placed(h[0])[hub])
    requires Reachability.Member(network, Placed(h[0]), Placed(h[0])[s])
    requires Reachability.Member(network, Placed(h[0]), Placed(h[0])[d])
    requires Placed(h[0])[s] != Placed(h[0])[d]
    ensures var c := StaleReads.Current(h);
            && SameSpecs(h[0], c)
            && Reachability.Delivers(c.peers[s].status.peers, c.peers[hub].status.peers, c.peers[d].status.peers,
                                     c.peers[s], c.peers[hub], c.peers[d])
  {
    StaleConvergence.Confluence(h);
    FinalDelivers(h[0], StaleReads.Current(h), network, hub, s, d);
  }

  /** The arguments that a guardlet passes to `wg` for a peer read back to the closed form of the specs. */
  ghost predicate Installed(c0: Cluster, c: Cluster, i: nat, iface: string, keyFile: string)
    requires i < |c0.peers| && FinalPeers(c0, i).Ok? && Splits(c0.peers[i].spec.endpoint)
  {
    && i < |c.peers|
    && var args := Guardlet.CfgArgs(iface, keyFile, c.peers[i]);
       && args.Ok?
       && Guardlet.ReadArgs(args.value) ==
          Some(Guardlet.WgConfig(iface, SplitHostPort(c0.peers[i].spec.endpoint).value.port, keyFile,
                                 Guardlet.AllMeant(FinalPeers(c0, i).value)))
  }

  lemma FinalInstalls(c0: Cluster, c: Cluster, i: nat, iface: string, keyFile: string)
    requires SameSpecs(c0, c) && Final(c0, c) && i < |c0.peers|
    requires FinalPeers(c0, i).Ok? && Guardlet.Faithful(FinalPeers(c0, i).value)
    requires Splits(c0.peers[i].spec.endpoint) && forall q <- c0.peers :: q.spec.publicKey != ""
    ensures Installed(c0, c, i, iface, keyFile)
  {
    FinalPrintable(c0, i);
    Guardlet.RoundTripExact(iface, keyFile, c.peers[i]);
  }

  /** At rest after any run, what a guardlet installs is the closed form. */
  lemma InstalledIsFinal(c0: Cluster, es: seq<Event>, i: nat, iface: string, keyFile: string)
    requires Pristine(c0) && Quiescent(Run(c0, es)) && i < |c0.peers|
    requires FinalPeers(c0, i).Ok? && Guardlet.Faithful(FinalPeers(c0, i).value)
    requires Splits(c0.peers[i].spec.endpoint) && forall q <- c0.peers :: q.spec.publicKey != ""
    ensures Installed(c0, Run(c0, es), i, iface, keyFile)
  {
    Confluence(c0, es);
    FinalInstalls(c0, Run(c0, es), i, iface, keyFile);
  }

  /** The same after any execution, with whatever old reads. */
  lemma RestInstalls(h: StaleReads.History, i: nat, iface: string, keyFile: string)
    requires StaleConvergence.Execution(h) && Quiescent(StaleReads.Current(h)) && i < |h[0].peers|
    requires FinalPeers(h[0], i).Ok? && Guardlet.Faithful(FinalPeers(h[0], i).value)
    requires Splits(h[0].peers[i].spec.endpoint) && forall q <- h[0].peers :: q.spec.publicKey != ""
    ensures Installed(h[0], StaleReads.Current(h), i, iface, keyFile)
  {
    StaleConvergence.Confluence(h);
    FinalInstalls(h[0], StaleReads.Current(h), i, iface, keyFile);
  }

  lemma FinalPrintable(c0: Cluster, i: nat)
    requires i < |c0.peers| && FinalPeers(c0, i).Ok? && forall q <- c0.peers :: q.spec.publicKey != ""
    ensures forall c <- FinalPeers(c0, i).value :: Guardlet.Printable(c)
  {
    forall c | c in FinalPeers(c0, i).value ensures Guardlet.Printable(c) {
      var q := MeshFacts.EntrySource(Placed(c0)[i], Placed(c0), c0.bindings, c);
      var k: nat :| k < |c0.peers| && Placed(c0)[k] == q;
      assert c0.peers[k] in c0.peers;
    }
  }
}
