/** Where reconciling ends: a closed form over the specs, reached by every run that comes to rest
    and by every schedule that contains four fair rounds. */
module Convergence {
  import opened Common
  import opened Api
  import opened ApiServer
  import opened NetworkController
  import opened PeerController
  import opened Allocations
  import opened NetworkChoice
  import opened Runs
  import MeshFacts

  // ---- The closed form ----

  /** The network a peer ends up in, or "". */
  function HomeName(c: Cluster, m: ObjectMeta): string {
    ChosenName(m, c.networks).GetOr("")
  }

  /** The address a peer ends up with: that of its network's first matching rule. */
  function HomeAddress(c: Cluster, m: ObjectMeta): string {
    match FindNetwork(c.networks, HomeName(c, m))
    case None => ""
    case Some(n) => AssignedAddress(m, n.spec.allocations).GetOr("")
  }

  /** All peers placed and addressed. */
  function Placed(c: Cluster): (peers: seq<Peer>)
    ensures |peers| == |c.peers|
  {
    seq(|c.peers|, i requires 0 <= i < |c.peers| =>
      c.peers[i].(status := PeerStatus(HomeAddress(c, c.peers[i].meta), HomeName(c, c.peers[i].meta), [])))
  }

  function FinalMesh(c: Cluster, i: nat): Result<seq<PeerConfiguration>>
    requires i < |c.peers|
  {
    Mesh(Placed(c)[i], Placed(c), c.bindings)
  }

  /** Peers without network or address never get a list. */
  function FinalPeers(c: Cluster, i: nat): Result<seq<PeerConfiguration>>
    requires i < |c.peers|
  {
    if Placed(c)[i].status.network == "" || Placed(c)[i].status.address == "" then Ok([]) else FinalMesh(c, i)
  }

  /** One entry for each peer whose home is the network, in list order. */
  function FinalAllocations(c: Cluster, network: string, peers: seq<Peer>): seq<IPAssignment> {
    if peers == [] then []
    else
      var m := peers[|peers| - 1].meta;
      FinalAllocations(c, network, peers[..|peers| - 1])
      + if HomeName(c, m) == network then [IPAssignment(m.name, HomeAddress(c, m))] else []
  }

  /** Networks, addresses and allocations of `c` agree with the closed form of `c0`. */
  ghost predicate Settled(c0: Cluster, c: Cluster)
    requires SameSpecs(c0, c)
  {
    && (forall i: nat :: i < |c.peers| ==>
          && c.peers[i].status.network == HomeName(c0, c0.peers[i].meta)
          && c.peers[i].status.address == HomeAddress(c0, c0.peers[i].meta))
    && (forall j: nat :: j < |c.networks| ==>
          multiset(c.networks[j].status.allocations) == multiset(FinalAllocations(c0, c0.networks[j].name, c0.peers)))
  }

  /** So do the peer lists, wherever the final list is computable. */
  ghost predicate Final(c0: Cluster, c: Cluster)
    requires SameSpecs(c0, c)
  {
    && Settled(c0, c)
    && (forall i: nat :: i < |c.peers| && FinalPeers(c0, i).Ok? ==> c.peers[i].status.peers == FinalPeers(c0, i).value)
  }

  /** No controller has acted yet. */
  ghost predicate Pristine(c: Cluster) {
    && WellFormed(c)
    && (forall p <- c.peers :: p.status == EMPTY_STATUS)
    && (forall n <- c.networks :: n.status.allocations == [])
  }

  // ---- The invariant of every run ----

  ghost predicate PeerTrue(c0: Cluster, p: Peer) {
    && (p.status.network == "" || p.status.network == HomeName(c0, p.meta))
    && (p.status.address == "" || (p.status.network != "" && p.status.address == HomeAddress(c0, p.meta)))
    && (p.status.peers == [] || p.status.address != "")
  }

  /** An entry belongs to a peer placed in the network, with its home address. */
  ghost predicate EntryTrue(c0: Cluster, c: Cluster, network: string, a: IPAssignment) {
    exists i: nat :: i < |c.peers| && c.peers[i].meta.name == a.name
                     && c.peers[i].status.network == network
                     && a.address == HomeAddress(c0, c.peers[i].meta)
  }

  ghost predicate Inv(c0: Cluster, c: Cluster) {
    && WellFormed(c0)
    && SameSpecs(c0, c)
    && (forall i: nat :: i < |c.peers| ==> PeerTrue(c0, c.peers[i]))
    && (forall j: nat :: j < |c.networks| ==> UniqueNames(AllocationNames(c.networks[j].status.allocations)))
    && (forall j: nat :: j < |c.networks| ==>
          forall a <- c.networks[j].status.allocations :: EntryTrue(c0, c, c.networks[j].name, a))
  }

  lemma PristineInv(c: Cluster)
    requires Pristine(c)
    ensures Inv(c, c)
  {
    assert forall i: nat :: i < |c.peers| ==> c.peers[i] in c.peers;
    assert forall j: nat :: j < |c.networks| ==> c.networks[j] in c.networks;
  }

  /** Statuses do not influence the choice of a network. */
  lemma SameHome(c0: Cluster, c: Cluster, m: ObjectMeta)
    requires SameSpecs(c0, c)
    ensures ChosenName(m, c.networks) == ChosenName(m, c0.networks)
  {
    ChoiceAlike(m, c.networks, c0.networks);
  }

  /** A home is the name of a network whose rules grant the home address. */
  lemma HomeGrants(c0: Cluster, m: ObjectMeta) returns (j: nat)
    requires WellFormed(c0) && HomeName(c0, m) != ""
    ensures j < |c0.networks| && c0.networks[j].name == HomeName(c0, m)
    ensures AssignedAddress(m, c0.networks[j].spec.allocations) == Some(HomeAddress(c0, m))
  {
    ChosenNetworkGrants(m, c0.networks);
    var n := ChooseNetwork(m, c0.networks).value.value;
    j :| j < |c0.networks| && c0.networks[j] == n;
    PositionUnique(NetworkNames(c0.networks), j);
  }

  lemma NetworkOfHome(c0: Cluster, c: Cluster, j: nat, m: ObjectMeta)
    requires WellFormed(c0) && SameSpecs(c0, c) && j < |c.networks| && c.networks[j].name == HomeName(c0, m)
    ensures FindNetwork(c.networks, HomeName(c0, m)) == Some(c.networks[j])
    ensures AssignedAddress(m, c.networks[j].spec.allocations) == Some(HomeAddress(c0, m))
  {
    SameSpecsNames(c0, c);
    PositionUnique(NetworkNames(c.networks), j);
    assert c0.networks[j] in c0.networks;
    var k := HomeGrants(c0, m);
    PositionUnique(NetworkNames(c0.networks), k);
    PositionUnique(NetworkNames(c0.networks), j);
  }

  lemma EntryOwner(c0: Cluster, c: Cluster, network: string, a: IPAssignment, i: nat)
    requires WellFormed(c) && EntryTrue(c0, c, network, a) && i < |c.peers| && c.peers[i].meta.name == a.name
    ensures c.peers[i].status.network == network && a.address == HomeAddress(c0, c.peers[i].meta)
  {
    var k: nat :| k < |c.peers| && c.peers[k].meta.name == a.name && c.peers[k].status.network == network
                  && a.address == HomeAddress(c0, c.peers[k].meta);
    SamePlace(c.peers, k, i);
  }

  lemma SamePlace(peers: seq<Peer>, i: nat, k: nat)
    requires UniqueNames(PeerNames(peers)) && i < |peers| && k < |peers| && peers[i].meta.name == peers[k].meta.name
    ensures i == k
  {
    assert PeerNames(peers)[i] == PeerNames(peers)[k];
  }

  /** What is recorded for a placed peer in its home network is its home address. */
  lemma RecordedTrue(c0: Cluster, c: Cluster, i: nat, j: nat)
    requires Inv(c0, c) && i < |c.peers| && j < |c.networks|
    requires Recorded(c.networks[j].status.allocations, c.peers[i].meta.name).Some?
    ensures Recorded(c.networks[j].status.allocations, c.peers[i].meta.name).value == HomeAddress(c0, c.peers[i].meta)
  {
    var allocations, name := c.networks[j].status.allocations, c.peers[i].meta.name;
    RecordedIsEntry(allocations, name);
    SameSpecsNames(c0, c);
    EntryOwner(c0, c, c.networks[j].name, IPAssignment(name, Recorded(allocations, name).value), i);
  }

  lemma FoundAt(networks: seq<Network>, name: string) returns (j: nat)
    requires FindNetwork(networks, name).Some?
    ensures j < |networks| && networks[j] == FindNetwork(networks, name).value && networks[j].name == name
  {
    j := Position(NetworkNames(networks), name).value;
  }

  lemma NextStatusTrue(c0: Cluster, c: Cluster, i: nat, s: PeerStatus)
    requires Inv(c0, c) && i < |c.peers| && NextStatus(c.peers[i], c) == Ok(s) && s != c.peers[i].status
    ensures PeerTrue(c0, c.peers[i].(status := s))
    ensures c.peers[i].status.network == "" || s.network == c.peers[i].status.network
  {
    var p := c.peers[i];
    SameSpecsNames(c0, c);
    PeerWriteShape(c, i, s);
    SameHome(c0, c, p.meta);
    if p.status.network != "" && p.status.address == "" {
      var j := FoundAt(c.networks, p.status.network);
      RecordedTrue(c0, c, i, j);
    }
  }

  /** A true status may be stored for a peer, if it does not move a placed one. */
  lemma PutPeerInv(c0: Cluster, c: Cluster, i: nat, s: PeerStatus)
    requires Inv(c0, c) && i < |c.peers| && PeerTrue(c0, c.peers[i].(status := s))
    requires c.peers[i].status.network == "" || s.network == c.peers[i].status.network
    ensures Inv(c0, PutPeer(c, i, s))
  {
    var d := PutPeer(c, i, s);
    forall j: nat, a | j < |d.networks| && a in d.networks[j].status.allocations
      ensures EntryTrue(c0, d, d.networks[j].name, a)
    {
      assert EntryTrue(c0, c, c.networks[j].name, a);
      var k: nat :| k < |c.peers| && c.peers[k].meta.name == a.name && c.peers[k].status.network == c.networks[j].name
                    && a.address == HomeAddress(c0, c.peers[k].meta);
      assert c0.networks[j] in c0.networks;
      assert d.peers[k].meta.name == a.name && d.peers[k].status.network == d.networks[j].name;
    }
  }

  lemma PeerStepInv(c0: Cluster, c: Cluster, i: nat, s: PeerStatus)
    requires Inv(c0, c) && i < |c.peers| && NextStatus(c.peers[i], c) == Ok(s) && s != c.peers[i].status
    ensures Inv(c0, PutPeer(c, i, s))
  {
    NextStatusTrue(c0, c, i, s);
    PutPeerInv(c0, c, i, s);
  }

  /** The entries computed from any list of placed peers may be appended to a network. */
  lemma PutNetworkInv(c0: Cluster, c: Cluster, j: nat, peers: seq<Peer>)
    requires Inv(c0, c) && j < |c.networks| && UniqueNames(PeerNames(peers))
    requires forall a <- Fresh(c.networks[j], peers) :: EntryTrue(c0, c, c.networks[j].name, a)
    ensures Inv(c0, PutNetwork(c, j, NetworkStatus(NextAllocations(c.networks[j], peers))))
  {
    var n := c.networks[j];
    var d := PutNetwork(c, j, NetworkStatus(NextAllocations(n, peers)));
    NextAllocationsExtend(n, peers);
    forall k: nat, a | k < |d.networks| && a in d.networks[k].status.allocations
      ensures EntryTrue(c0, d, d.networks[k].name, a)
    {
      assert EntryTrue(c0, c, c.networks[k].name, a);
      assert d.peers == c.peers;
    }
  }

  lemma NetworkStepInv(c0: Cluster, c: Cluster, j: nat)
    requires Inv(c0, c) && j < |c.networks|
    ensures Inv(c0, Apply(c, NetworkChange(j)))
  {
    var n := c.networks[j];
    SameSpecsNames(c0, c);
    forall a | a in Fresh(n, c.peers) ensures EntryTrue(c0, c, n.name, a) {
      FreshExact(n, c.peers, a);
      var p :| p in c.peers && Gains(n, p) &&
          a == IPAssignment(p.meta.name, AssignedAddress(p.meta, n.spec.allocations).value);
      var k: nat :| k < |c.peers| && c.peers[k] == p;
      assert c0.networks[j] in c0.networks;
      NetworkOfHome(c0, c, j, p.meta);
    }
    PutNetworkInv(c0, c, j, c.peers);
  }

  lemma StepInv(c0: Cluster, c: Cluster, e: Event)
    requires Inv(c0, c)
    ensures Inv(c0, Step(c, e))
  {
    StepIs(c, e);
    match ChangeOf(c, e)
    case Nothing =>
    case PeerChange(i, s) => PeerStepInv(c0, c, i, s);
    case NetworkChange(j) => NetworkStepInv(c0, c, j);
  }

  lemma {:induction false} RunKeepsInv(c0: Cluster, c: Cluster, es: seq<Event>)
    requires Inv(c0, c)
    ensures Inv(c0, Run(c, es))
    decreases |es|
  {
    if es != [] {
      StepInv(c0, c, es[0]);
      RunKeepsInv(c0, Step(c, es[0]), es[1..]);
    }
  }

  /** In every state of every run from empty statuses: a peer is unplaced or at home, unaddressed or at its home
      address, and every allocation is that of a placed peer, with its home address. */
  lemma RunInv(c0: Cluster, es: seq<Event>)
    requires Pristine(c0)
    ensures Inv(c0, Run(c0, es))
  {
    PristineInv(c0);
    RunKeepsInv(c0, c0, es);
  }

  // ---- Four rounds ----

  /** Progress: 1 peers placed, 2 networks allocated, 3 peers addressed, 4 lists computed. */
  ghost predicate Done(c0: Cluster, c: Cluster, round: nat, x: nat)
    requires SameSpecs(c0, c)
  {
    match round
    case 1 => x < |c.peers| ==> c.peers[x].status.network == HomeName(c0, c0.peers[x].meta)
    case 2 => x < |c.networks| ==>
        forall i: nat :: i < |c.peers| && HomeName(c0, c0.peers[i].meta) == c.networks[x].name ==>
                                     c.peers[i].meta.name in AllocationNames(c.networks[x].status.allocations)
    case 3 => x < |c.peers| ==> c.peers[x].status.address == HomeAddress(c0, c0.peers[x].meta)
    case 4 => x < |c.peers| && FinalPeers(c0, x).Ok? ==> c.peers[x].status.peers == FinalPeers(c0, x).value
    case _ => true
  }

  ghost predicate AllDone(c0: Cluster, c: Cluster, round: nat)
    requires SameSpecs(c0, c)
  {
    forall x: nat :: Done(c0, c, round, x)
  }

  ghost predicate DoneBefore(c0: Cluster, c: Cluster, round: nat)
    requires SameSpecs(c0, c)
  {
    forall r: nat :: r < round ==> AllDone(c0, c, r)
  }

  /** The reconcile that makes progress for place `x` of a round. */
  predicate IsEventFor(c0: Cluster, round: nat, x: nat, e: Event) {
    if round == 2 then x < |c0.networks| && e == NetworkEvent(c0.networks[x].name)
    else x < |c0.peers| && e == PeerEvent(c0.peers[x].meta.name)
  }

  /** Every object of the round's kind is reconciled at least once. */
  ghost predicate Covers(c0: Cluster, round: nat, es: seq<Event>) {
    if round == 2 then forall j :: 0 <= j < |c0.networks| ==> NetworkEvent(c0.networks[j].name) in es
    else forall i :: 0 <= i < |c0.peers| ==> PeerEvent(c0.peers[i].meta.name) in es
  }

  lemma PeerChangeAt(c0: Cluster, c: Cluster, x: nat)
    requires Inv(c0, c) && x < |c.peers|
    ensures var e := PeerEvent(c0.peers[x].meta.name);
            ChangeOf(c, e) == match NextStatus(c.peers[x], c)
                              case Err => Nothing
                              case Ok(s) => if s == c.peers[x].status then Nothing else PeerChange(x, s)
  {
    SameSpecsNames(c0, c);
    PositionUnique(PeerNames(c.peers), x);
  }

  lemma Places1(c0: Cluster, c: Cluster, x: nat)
    requires Inv(c0, c) && x < |c.peers|
    ensures Done(c0, Step(c, PeerEvent(c0.peers[x].meta.name)), 1, x)
  {
    var e := PeerEvent(c0.peers[x].meta.name);
    StepIs(c, e);
    PeerChangeAt(c0, c, x);
    SameHome(c0, c, c.peers[x].meta);
  }

  /** Reconciling a peer's network leaves the peer with an entry there. */
  lemma GetsEntry(c0: Cluster, c: Cluster, i: nat, x: nat)
    requires Inv(c0, c) && i < |c.peers| && x < |c.networks| && c.peers[i].status.network == c.networks[x].name
    ensures var d := Step(c, NetworkEvent(c0.networks[x].name));
            && d.peers == c.peers && |d.networks| == |c.networks|
            && c.peers[i].meta.name in AllocationNames(d.networks[x].status.allocations)
  {
    var e := NetworkEvent(c0.networks[x].name);
    var p, n := c.peers[i], c.networks[x];
    SameSpecsNames(c0, c);
    PositionUnique(NetworkNames(c.networks), x);
    StepIs(c, e);
    assert c0.networks[x] in c0.networks && PeerTrue(c0, p);
    NetworkOfHome(c0, c, x, p.meta);
    assert Step(c, e).networks[x].status.allocations == n.status.allocations + Fresh(n, c.peers);
    NamesAppend(n.status.allocations, Fresh(n, c.peers));
    if p.meta.name !in AllocationNames(n.status.allocations) {
      assert p in c.peers && Gains(n, p);
      FreshExact(n, c.peers, IPAssignment(p.meta.name, HomeAddress(c0, p.meta)));
      NamesOf(Fresh(n, c.peers), p.meta.name);
    }
  }

  lemma Allocates2(c0: Cluster, c: Cluster, x: nat)
    requires Inv(c0, c) && DoneBefore(c0, c, 2) && x < |c.networks|
    ensures Done(c0, Step(c, NetworkEvent(c0.networks[x].name)), 2, x)
  {
    var e := NetworkEvent(c0.networks[x].name);
    StepKeepsSpecs(c, e);
    assert AllDone(c0, c, 1);
    forall i: nat | i < |c.peers| && HomeName(c0, c0.peers[i].meta) == c.networks[x].name
      ensures c.peers[i].meta.name in AllocationNames(Step(c, e).networks[x].status.allocations)
    {
      assert Done(c0, c, 1, i);
      GetsEntry(c0, c, i, x);
    }
  }

  /** A placed peer with an entry reads its home address. */
  lemma ReadsEntry(c0: Cluster, c: Cluster, x: nat)
    requires Inv(c0, c) && x < |c.peers| && HasEntry(c, x)
    ensures Recorded(FindNetwork(c.networks, c.peers[x].status.network).value.status.allocations, c.peers[x].meta.name)
            == Some(HomeAddress(c0, c0.peers[x].meta))
  {
    var j := FoundAt(c.networks, c.peers[x].status.network);
    RecordedTrue(c0, c, x, j);
  }

  /** Once networks are allocated, every placed peer has its entry. */
  lemma ReadsHome(c0: Cluster, c: Cluster, x: nat)
    requires Inv(c0, c) && DoneBefore(c0, c, 3) && x < |c.peers| && c.peers[x].status.network != ""
    ensures HasEntry(c, x)
    ensures Recorded(FindNetwork(c.networks, c.peers[x].status.network).value.status.allocations, c.peers[x].meta.name)
            == Some(HomeAddress(c0, c0.peers[x].meta))
  {
    var m := c.peers[x].meta;
    assert AllDone(c0, c, 1) && Done(c0, c, 1, x);
    var j := HomeGrants(c0, m);
    NetworkOfHome(c0, c, j, m);
    assert AllDone(c0, c, 2) && Done(c0, c, 2, j);
    ReadsEntry(c0, c, x);
  }

  lemma NoHomeNoAddress(c0: Cluster, m: ObjectMeta)
    requires WellFormed(c0) && HomeName(c0, m) == ""
    ensures HomeAddress(c0, m) == ""
  {
    NoEmptyName(c0);
  }

  lemma Addresses3(c0: Cluster, c: Cluster, x: nat)
    requires Inv(c0, c) && DoneBefore(c0, c, 3) && x < |c.peers|
    ensures Done(c0, Step(c, PeerEvent(c0.peers[x].meta.name)), 3, x)
  {
    var e := PeerEvent(c0.peers[x].meta.name);
    StepIs(c, e);
    PeerChangeAt(c0, c, x);
    assert AllDone(c0, c, 1) && Done(c0, c, 1, x);
    SameHome(c0, c, c.peers[x].meta);
    if c.peers[x].status.network == "" {
      NoHomeNoAddress(c0, c.peers[x].meta);
    } else {
      ReadsHome(c0, c, x);
    }
  }

  /** Once all peers are placed and addressed, a mesh computed now is the final one. */
  lemma MeshIsFinal(c0: Cluster, c: Cluster, x: nat)
    requires SameSpecs(c0, c) && AllDone(c0, c, 1) && AllDone(c0, c, 3) && x < |c.peers|
    ensures Mesh(c.peers[x], c.peers, c.bindings) == FinalMesh(c0, x)
  {
    forall i | 0 <= i < |c.peers| ensures MeshFacts.SameView(c.peers[i], Placed(c0)[i]) {
      assert Done(c0, c, 1, i) && Done(c0, c, 3, i);
    }
    MeshFacts.MeshCongruent(c.peers[x], Placed(c0)[x], c.peers, Placed(c0), c.bindings);
  }

  lemma Computes4(c0: Cluster, c: Cluster, x: nat)
    requires Inv(c0, c) && DoneBefore(c0, c, 4) && x < |c.peers|
    ensures Done(c0, Step(c, PeerEvent(c0.peers[x].meta.name)), 4, x)
  {
    var e := PeerEvent(c0.peers[x].meta.name);
    StepIs(c, e);
    PeerChangeAt(c0, c, x);
    assert AllDone(c0, c, 1) && AllDone(c0, c, 3);
    assert Done(c0, c, 1, x) && Done(c0, c, 3, x);
    MeshIsFinal(c0, c, x);
    var p := c.peers[x];
    SameHome(c0, c, p.meta);
    if p.status.network != "" {
      ReadsHome(c0, c, x);
    }
  }

  lemma StepEstablishes(c0: Cluster, c: Cluster, round: nat, x: nat, e: Event)
    requires Inv(c0, c) && 1 <= round <= 4 && DoneBefore(c0, c, round) && IsEventFor(c0, round, x, e)
    ensures SameSpecs(c0, Step(c, e)) && Done(c0, Step(c, e), round, x)
  {
    StepInv(c0, c, e);
    match round
    case 1 => Places1(c0, c, x);
    case 2 => Allocates2(c0, c, x);
    case 3 => Addresses3(c0, c, x);
    case 4 => Computes4(c0, c, x);
  }

  lemma KeepsAllocated(c0: Cluster, c: Cluster, e: Event, x: nat)
    requires Inv(c0, c) && Done(c0, c, 2, x)
    ensures SameSpecs(c0, Step(c, e)) && Done(c0, Step(c, e), 2, x)
  {
    StepInv(c0, c, e);
    StepIs(c, e);
    if x < |c.networks| && ChangeOf(c, e) == NetworkChange(x) {
      NamesAppend(c.networks[x].status.allocations, Fresh(c.networks[x], c.peers));
    }
  }

  lemma KeepsPeer(c0: Cluster, c: Cluster, i: nat, s: PeerStatus, round: nat, x: nat)
    requires Inv(c0, c) && i < |c.peers| && NextStatus(c.peers[i], c) == Ok(s) && s != c.peers[i].status
    requires round in {1, 3, 4} && DoneBefore(c0, c, round) && Done(c0, c, round, x)
    ensures Done(c0, PutPeer(c, i, s), round, x)
  {
    SameSpecsNames(c0, c);
    PeerWriteShape(c, i, s);
    NextStatusTrue(c0, c, i, s);
    if round == 4 && x == i && c.peers[i].status.address != "" {
      assert AllDone(c0, c, 1) && AllDone(c0, c, 3);
      assert Done(c0, c, 1, i) && Done(c0, c, 3, i);
      MeshIsFinal(c0, c, i);
    }
  }

  /** Progress is never lost. */
  lemma StepKeeps(c0: Cluster, c: Cluster, e: Event, round: nat, x: nat)
    requires Inv(c0, c) && DoneBefore(c0, c, round) && Done(c0, c, round, x)
    ensures SameSpecs(c0, Step(c, e)) && Done(c0, Step(c, e), round, x)
  {
    StepInv(c0, c, e);
    if round == 2 {
      KeepsAllocated(c0, c, e, x);
    } else if round in {1, 3, 4} {
      StepIs(c, e);
      if ChangeOf(c, e).PeerChange? {
        KeepsPeer(c0, c, ChangeOf(c, e).i, ChangeOf(c, e).status, round, x);
      }
    }
  }

  lemma StepKeepsBefore(c0: Cluster, c: Cluster, e: Event, round: nat)
    requires Inv(c0, c) && DoneBefore(c0, c, round)
    ensures SameSpecs(c0, Step(c, e)) && DoneBefore(c0, Step(c, e), round)
  {
    StepInv(c0, c, e);
    forall r: nat, x: nat | r < round ensures Done(c0, Step(c, e), r, x) {
      assert AllDone(c0, c, r);
      StepKeeps(c0, c, e, r, x);
    }
  }

  /** Once every earlier round is complete, reconciling an object completes its place in this round for good. */
  lemma {:induction false} Round(c0: Cluster, c: Cluster, es: seq<Event>, round: nat, x: nat)
    requires Inv(c0, c) && 1 <= round <= 4 && DoneBefore(c0, c, round)
    requires Done(c0, c, round, x) || exists e <- es :: IsEventFor(c0, round, x, e)
    ensures SameSpecs(c0, Run(c, es)) && DoneBefore(c0, Run(c, es), round) && Done(c0, Run(c, es), round, x)
    decreases |es|
  {
    if es != [] {
      var d := Step(c, es[0]);
      StepInv(c0, c, es[0]);
      StepKeepsBefore(c0, c, es[0], round);
      if Done(c0, c, round, x) {
        StepKeeps(c0, c, es[0], round, x);
      } else if IsEventFor(c0, round, x, es[0]) {
        StepEstablishes(c0, c, round, x, es[0]);
      } else {
        var e :| e in es && IsEventFor(c0, round, x, e);
        assert e in es[1..];
      }
      Round(c0, d, es[1..], round, x);
    }
  }

  lemma FullRound(c0: Cluster, c: Cluster, es: seq<Event>, round: nat)
    requires Inv(c0, c) && 1 <= round <= 4 && DoneBefore(c0, c, round) && Covers(c0, round, es)
    ensures Inv(c0, Run(c, es)) && DoneBefore(c0, Run(c, es), round + 1)
  {
    RunKeepsInv(c0, c, es);
    forall r: nat, x: nat | r <= round ensures Done(c0, Run(c, es), r, x) {
      CoveredPlace(c0, c, es, round, x);
      if r < round {
        assert AllDone(c0, Run(c, es), r);
      }
    }
  }

  lemma CoveredPlace(c0: Cluster, c: Cluster, es: seq<Event>, round: nat, x: nat)
    requires Inv(c0, c) && 1 <= round <= 4 && DoneBefore(c0, c, round) && Covers(c0, round, es)
    ensures SameSpecs(c0, Run(c, es)) && DoneBefore(c0, Run(c, es), round) && Done(c0, Run(c, es), round, x)
  {
    if round == 2 && x < |c.networks| {
      assert IsEventFor(c0, round, x, NetworkEvent(c0.networks[x].name));
    } else if round != 2 && x < |c.peers| {
      assert IsEventFor(c0, round, x, PeerEvent(c0.peers[x].meta.name));
    }
    Round(c0, c, es, round, x);
  }

  // ---- Rest ----

  /** When all four rounds are complete no reconcile writes, even where some mesh is not computable. */
  lemma DoneRests(c0: Cluster, c: Cluster)
    requires Inv(c0, c) && DoneBefore(c0, c, 5)
    ensures Quiescent(c)
  {
    forall e ensures Step(c, e) == c {
      StepIs(c, e);
      match e
      case PeerEvent(name) =>
        if Position(PeerNames(c.peers), name).Some? {
          DonePeerRests(c0, c, Position(PeerNames(c.peers), name).value);
        }
      case NetworkEvent(name) =>
        if Position(NetworkNames(c.networks), name).Some? {
          DoneNetworkRests(c0, c, Position(NetworkNames(c.networks), name).value);
        }
    }
  }

  lemma DonePeerRests(c0: Cluster, c: Cluster, x: nat)
    requires Inv(c0, c) && DoneBefore(c0, c, 5) && x < |c.peers|
    ensures NextStatus(c.peers[x], c).Ok? ==> NextStatus(c.peers[x], c).value == c.peers[x].status
  {
    var p := c.peers[x];
    assert AllDone(c0, c, 1) && AllDone(c0, c, 3) && AllDone(c0, c, 4);
    assert Done(c0, c, 1, x) && Done(c0, c, 3, x) && Done(c0, c, 4, x);
    SameHome(c0, c, p.meta);
    MeshIsFinal(c0, c, x);
    if p.status.network != "" {
      ReadsHome(c0, c, x);
    }
  }

  lemma DoneNetworkRests(c0: Cluster, c: Cluster, x: nat)
    requires Inv(c0, c) && DoneBefore(c0, c, 3) && x < |c.networks|
    ensures Fresh(c.networks[x], c.peers) == []
  {
    var n := c.networks[x];
    SameSpecsNames(c0, c);
    assert n in c.networks;
    assert AllDone(c0, c, 1) && AllDone(c0, c, 2) && Done(c0, c, 2, x);
    forall p | p in c.peers ensures !Gains(n, p) {
      var i: nat :| i < |c.peers| && c.peers[i] == p;
      assert Done(c0, c, 1, i);
    }
    NoGains(n, c.peers);
  }

  lemma RestingRound(c0: Cluster, c: Cluster, round: nat)
    requires Inv(c0, c) && Quiescent(c) && 1 <= round <= 4 && DoneBefore(c0, c, round)
    ensures DoneBefore(c0, c, round + 1)
  {
    hide PeerTrue, EntryTrue;
    forall x: nat ensures Done(c0, c, round, x) {
      if round == 2 && x < |c.networks| {
        StepEstablishes(c0, c, round, x, NetworkEvent(c0.networks[x].name));
      } else if round != 2 && x < |c.peers| {
        StepEstablishes(c0, c, round, x, PeerEvent(c0.peers[x].meta.name));
      }
    }
    forall r: nat | r < round + 1 ensures AllDone(c0, c, r) {
    }
  }

  lemma RestIsDone(c0: Cluster, c: Cluster)
    requires Inv(c0, c) && Quiescent(c)
    ensures DoneBefore(c0, c, 5)
  {
    RestingRound(c0, c, 1);
    RestingRound(c0, c, 2);
    RestingRound(c0, c, 3);
    RestingRound(c0, c, 4);
  }

  // ---- Allocations at rest ----

  lemma {:induction false} FinalAllocationsExact(c0: Cluster, network: string, peers: seq<Peer>, a: IPAssignment)
    ensures a in FinalAllocations(c0, network, peers) <==>
              exists p <- peers :: HomeName(c0, p.meta) == network &&
                a == IPAssignment(p.meta.name, HomeAddress(c0, p.meta))
  {
    if peers != [] {
      var k := |peers| - 1;
      FinalAllocationsExact(c0, network, peers[..k], a);
      assert peers == peers[..k] + [peers[k]];
    }
  }

  lemma FinalAllocationsNames(c0: Cluster, network: string, peers: seq<Peer>, a: IPAssignment)
    requires a in FinalAllocations(c0, network, peers)
    ensures a.name in PeerNames(peers)
  {
    FinalAllocationsExact(c0, network, peers, a);
    var p :| p in peers && a == IPAssignment(p.meta.name, HomeAddress(c0, p.meta));
    var i: nat :| i < |peers| && peers[i] == p;
    assert PeerNames(peers)[i] == a.name;
  }

  ghost predicate Distinct(s: seq<IPAssignment>) {
    forall i, j :: 0 <= i < j < |s| ==> s[i] != s[j]
  }

  lemma {:induction false} FinalAllocationsDistinct(c0: Cluster, network: string, peers: seq<Peer>)
    requires UniqueNames(PeerNames(peers))
    ensures Distinct(FinalAllocations(c0, network, peers))
  {
    if peers != [] {
      var k := |peers| - 1;
      var init := peers[..k];
      assert PeerNames(peers) == PeerNames(init) + [peers[k].meta.name];
      assert forall i :: 0 <= i < k ==> PeerNames(init)[i] == PeerNames(peers)[i] != PeerNames(peers)[k];
      FinalAllocationsDistinct(c0, network, init);
      forall a | a in FinalAllocations(c0, network, init) ensures a.name != peers[k].meta.name {
        FinalAllocationsNames(c0, network, init, a);
      }
    }
  }

  lemma {:induction false} DistinctCounts(s: seq<IPAssignment>, a: IPAssignment)
    requires Distinct(s)
    ensures multiset(s)[a] == if a in s then 1 else 0
  {
    if s != [] {
      var k := |s| - 1;
      DistinctCounts(s[..k], a);
      assert s == s[..k] + [s[k]];
    }
  }

  lemma DoneAllocations(c0: Cluster, c: Cluster, j: nat)
    requires Inv(c0, c) && DoneBefore(c0, c, 4) && j < |c.networks|
    ensures multiset(c.networks[j].status.allocations) == multiset(FinalAllocations(c0, c0.networks[j].name, c0.peers))
  {
    var n := c.networks[j];
    var s, t := n.status.allocations, FinalAllocations(c0, n.name, c0.peers);
    SameSpecsNames(c0, c);
    FinalAllocationsDistinct(c0, n.name, c0.peers);
    forall i, k | 0 <= i < k < |s| ensures s[i] != s[k] {
      assert AllocationNames(s)[i] != AllocationNames(s)[k];
    }
    forall a ensures a in s <==> a in t {
      AllocationMatches(c0, c, j, a);
    }
    forall a ensures multiset(s)[a] == multiset(t)[a] {
      DistinctCounts(s, a);
      DistinctCounts(t, a);
    }
  }

  lemma AllocationMatches(c0: Cluster, c: Cluster, j: nat, a: IPAssignment)
    requires Inv(c0, c) && DoneBefore(c0, c, 4) && j < |c.networks|
    ensures a in c.networks[j].status.allocations <==> a in FinalAllocations(c0, c0.networks[j].name, c0.peers)
  {
    if a in c.networks[j].status.allocations {
      AllocationIsFinal(c0, c, j, a);
    }
    if a in FinalAllocations(c0, c0.networks[j].name, c0.peers) {
      FinalIsAllocated(c0, c, j, a);
    }
  }

  lemma AllocationIsFinal(c0: Cluster, c: Cluster, j: nat, a: IPAssignment)
    requires Inv(c0, c) && j < |c.networks| && a in c.networks[j].status.allocations
    ensures a in FinalAllocations(c0, c0.networks[j].name, c0.peers)
  {
    var name := c.networks[j].name;
    assert EntryTrue(c0, c, name, a);
    var i: nat :| i < |c.peers| && c.peers[i].meta.name == a.name && c.peers[i].status.network == name
                  && a.address == HomeAddress(c0, c.peers[i].meta);
    assert PeerTrue(c0, c.peers[i]);
    assert c0.networks[j] in c0.networks && c0.peers[i] in c0.peers;
    FinalAllocationsExact(c0, name, c0.peers, a);
  }

  lemma FinalIsAllocated(c0: Cluster, c: Cluster, j: nat, a: IPAssignment)
    requires Inv(c0, c) && DoneBefore(c0, c, 4) && j < |c.networks|
    requires a in FinalAllocations(c0, c0.networks[j].name, c0.peers)
    ensures a in c.networks[j].status.allocations
  {
    var n := c.networks[j];
    SameSpecsNames(c0, c);
    FinalAllocationsExact(c0, n.name, c0.peers, a);
    var p :| p in c0.peers && HomeName(c0, p.meta) == n.name && a == IPAssignment(p.meta.name, HomeAddress(c0, p.meta));
    var i: nat :| i < |c0.peers| && c0.peers[i] == p;
    assert AllDone(c0, c, 2) && Done(c0, c, 2, j);
    NamesOf(n.status.allocations, a.name);
    var b :| b in n.status.allocations && b.name == a.name;
    assert EntryTrue(c0, c, n.name, b);
    EntryOwner(c0, c, n.name, b, i);
  }

  lemma DoneIsSettled(c0: Cluster, c: Cluster)
    requires Inv(c0, c) && DoneBefore(c0, c, 4)
    ensures Settled(c0, c)
  {
    assert AllDone(c0, c, 1) && AllDone(c0, c, 3);
    forall i: nat | i < |c.peers|
      ensures c.peers[i].status.network == HomeName(c0, c0.peers[i].meta)
      ensures c.peers[i].status.address == HomeAddress(c0, c0.peers[i].meta)
    {
      assert Done(c0, c, 1, i) && Done(c0, c, 3, i);
    }
    forall j: nat | j < |c.networks|
      ensures multiset(c.networks[j].status.allocations) ==
          multiset(FinalAllocations(c0, c0.networks[j].name, c0.peers))
    {
      DoneAllocations(c0, c, j);
    }
  }

  lemma DoneIsFinal(c0: Cluster, c: Cluster)
    requires Inv(c0, c) && DoneBefore(c0, c, 5)
    ensures Final(c0, c)
  {
    DoneIsSettled(c0, c);
    assert AllDone(c0, c, 4);
    forall i: nat | i < |c.peers| && FinalPeers(c0, i).Ok? ensures c.peers[i].status.peers == FinalPeers(c0, i).value {
      assert Done(c0, c, 4, i);
    }
  }

  // ---- Main results ----

  /** Confluence: every run from empty statuses that comes to rest ends in the closed form. */
  lemma Confluence(c0: Cluster, es: seq<Event>)
    requires Pristine(c0) && Quiescent(Run(c0, es))
    ensures SameSpecs(c0, Run(c0, es)) && Final(c0, Run(c0, es))
  {
    RunInv(c0, es);
    RestIsDone(c0, Run(c0, es));
    DoneIsFinal(c0, Run(c0, es));
  }

  /** Fair schedules converge: whatever else is reconciled in between, one pass over the peers, one over the networks
      and two more over the peers bring the cluster to rest in the closed form. */
  lemma FourRoundsConverge(c0: Cluster, place: seq<Event>, allocate: seq<Event>, address: seq<Event>,
                           compute: seq<Event>)
    requires Pristine(c0)
    requires Covers(c0, 1, place) && Covers(c0, 2, allocate) && Covers(c0, 3, address) && Covers(c0, 4, compute)
    ensures var c := Run(c0, place + allocate + address + compute);
            SameSpecs(c0, c) && Final(c0, c) && Quiescent(c)
  {
    PristineInv(c0);
    assert forall x: nat :: Done(c0, c0, 0, x);
    var c1 := Run(c0, place);
    FullRound(c0, c0, place, 1);
    var c2 := Run(c1, allocate);
    FullRound(c0, c1, allocate, 2);
    var c3 := Run(c2, address);
    FullRound(c0, c2, address, 3);
    FullRound(c0, c3, compute, 4);
    RunAppend(c0, place, allocate);
    RunAppend(c0, place + allocate, address);
    RunAppend(c0, place + allocate + address, compute);
    DoneIsFinal(c0, Run(c3, compute));
    DoneRests(c0, Run(c3, compute));
  }

  /** Pruning would change nothing: without deletions the dropped list equals the list that is stored. */
  lemma PruneIsIdentity(c0: Cluster, es: seq<Event>, j: nat)
    requires Pristine(c0) && j < |Run(c0, es).networks|
    ensures var c := Run(c0, es);
            var n := c.networks[j];
            Live(NextAllocations(n, c.peers), Members(n.name, c.peers)) == NextAllocations(n, c.peers)
  {
    RunInv(c0, es);
    var c := Run(c0, es);
    var n := c.networks[j];
    NetworkStepInv(c0, c, j);
    var d := Apply(c, NetworkChange(j));
    forall a | a in NextAllocations(n, c.peers) ensures a.name in Members(n.name, c.peers) {
      assert EntryTrue(c0, d, n.name, a);
      var i: nat :| i < |c.peers| && c.peers[i].meta.name == a.name && c.peers[i].status.network == n.name;
      assert c.peers[i] in c.peers;
    }
    PruneExact(NextAllocations(n, c.peers), Members(n.name, c.peers));
  }

  /** No placed peer ever meets the allocation error, and reconciling its network gives it the first rule's address. */
  lemma PlacedPeersAllocate(c0: Cluster, es: seq<Event>, i: nat, j: nat)
    requires Pristine(c0) && i < |Run(c0, es).peers| && j < |Run(c0, es).networks|
    requires Run(c0, es).peers[i].status.network == Run(c0, es).networks[j].name
    ensures var c := Run(c0, es);
            var p, n := c.peers[i], c.networks[j];
            && AssignedAddress(p.meta, n.spec.allocations).Some?
            && Recorded(Step(c, NetworkEvent(n.name)).networks[j].status.allocations, p.meta.name)
               == AssignedAddress(p.meta, n.spec.allocations)
  {
    RunInv(c0, es);
    var c := Run(c0, es);
    var p, n := c.peers[i], c.networks[j];
    SameSpecsNames(c0, c);
    assert n in c.networks;
    assert PeerTrue(c0, p);
    NetworkOfHome(c0, c, j, p.meta);
    var e := NetworkEvent(n.name);
    var d := Step(c, e);
    StepIs(c, e);
    StepInv(c0, c, e);
    PositionUnique(NetworkNames(c.networks), j);
    assert d.networks[j].status.allocations == n.status.allocations + Fresh(n, c.peers);
    NamesAppend(n.status.allocations, Fresh(n, c.peers));
    if p.meta.name !in AllocationNames(n.status.allocations) {
      FreshExact(n, c.peers, IPAssignment(p.meta.name, HomeAddress(c0, p.meta)));
      assert p in c.peers && Gains(n, p);
      NamesOf(Fresh(n, c.peers), p.meta.name);
    }
    RecordedTrue(c0, d, i, j);
  }

  /** The rule that gives a peer its address. */
  ghost predicate ServedBy(n: Network, m: ObjectMeta, r: nat) {
    FirstRule(m, n.spec.allocations) == Some(r)
  }

  /** Rules hold distinct addresses and each is the first match of at most one peer. */
  ghost predicate OneRuleEach(c0: Cluster) {
    && (forall n <- c0.networks, r: nat, s: nat :: r < s < |n.spec.allocations| ==>
          n.spec.allocations[r].address != n.spec.allocations[s].address)
    && (forall n <- c0.networks, r: nat, p <- c0.peers, q <- c0.peers ::
          ServedBy(n, p.meta, r) && ServedBy(n, q.meta, r) ==> p == q)
  }

  /** No two peers of a network share an address. */
  ghost predicate NoSharedAddress(c: Cluster) {
    forall p <- c.peers, q <- c.peers ::
      p.meta.name != q.meta.name && p.status.network == q.status.network && p.status.address != "" ==>
        p.status.address != q.status.address
  }

  lemma TrueAddressesDistinct(c0: Cluster, c: Cluster)
    requires Inv(c0, c) && OneRuleEach(c0)
    ensures NoSharedAddress(c)
  {
    forall p, q | p in c.peers && q in c.peers && p.meta.name != q.meta.name
                  && p.status.network == q.status.network && p.status.address != ""
      ensures p.status.address != q.status.address
    {
      var i: nat :| i < |c.peers| && c.peers[i] == p;
      var k: nat :| k < |c.peers| && c.peers[k] == q;
      assert PeerTrue(c0, p) && PeerTrue(c0, q);
      if q.status.address != "" {
        HomesDiffer(c0, c0.peers[i], c0.peers[k]) by {
          assert c0.peers[i] in c0.peers && c0.peers[k] in c0.peers;
        }
      }
    }
  }

  /** If each rule serves one peer, no two peers of a network ever share an address. */
  lemma AddressesDistinct(c0: Cluster, es: seq<Event>)
    requires Pristine(c0) && OneRuleEach(c0)
    ensures NoSharedAddress(Run(c0, es))
  {
    RunInv(c0, es);
    TrueAddressesDistinct(c0, Run(c0, es));
  }

  lemma HomesDiffer(c0: Cluster, p: Peer, q: Peer)
    requires WellFormed(c0) && OneRuleEach(c0) && p in c0.peers && q in c0.peers && p != q
    requires HomeName(c0, p.meta) == HomeName(c0, q.meta) != ""
    requires HomeAddress(c0, p.meta) != "" && HomeAddress(c0, q.meta) != ""
    ensures HomeAddress(c0, p.meta) != HomeAddress(c0, q.meta)
  {
    var j := HomeGrants(c0, p.meta);
    NetworkOfHome(c0, c0, j, q.meta);
    var n := c0.networks[j];
    var r, s := FirstRule(p.meta, n.spec.allocations).value, FirstRule(q.meta, n.spec.allocations).value;
    assert ServedBy(n, p.meta, r) && ServedBy(n, q.meta, s);
    assert n in c0.networks;
    assert r < s || s < r;
  }
}
