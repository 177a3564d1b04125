/** When the final peer list depends on timing: exactly which peers are affected. */
module Divergence {
  import opened Common
  import opened Text
  import opened Api
  import opened ApiServer
  import opened NetworkController
  import opened PeerController
  import opened Runs
  import opened Convergence
  import Allocations
  import MeshFacts

  /** Once everyone is addressed, the peer's mesh fails on some neighbour, although another one could be listed. */
  ghost predicate Jammed(c0: Cluster, i: nat)
    requires i < |c0.peers|
  {
    var s := Placed(c0)[i];
    && s.status.network != "" && s.status.address != ""
    && Splits(s.spec.endpoint)
    && (exists r <- Placed(c0) :: Neighbour(s, r) && !Splits(r.spec.endpoint))
    && (exists q <- Placed(c0) :: Linked(s, q) && Splits(q.spec.endpoint))
  }

  // ---- A peer that is not jammed ----

  /** A list that was ever computed names a neighbour that could be listed in the end. */
  ghost predicate Witnessed(c0: Cluster, c: Cluster, i: nat)
    requires SameSpecs(c0, c) && i < |c.peers|
  {
    c.peers[i].status.peers != [] ==>
      && Splits(c0.peers[i].spec.endpoint)
      && exists q <- Placed(c0) :: Linked(Placed(c0)[i], q) && Splits(q.spec.endpoint)
  }

  lemma PlacedLinks(c0: Cluster, c: Cluster, a: Cluster, i: nat, k: nat)
    requires Inv(c0, c) && Inv(c0, a) && i < |c.peers| && k < |a.peers|
    requires c.peers[i].status.address != "" && Linked(c.peers[i], a.peers[k])
    ensures Linked(Placed(c0)[i], Placed(c0)[k])
  {
    assert PeerTrue(c0, c.peers[i]) && PeerTrue(c0, a.peers[k]);
  }

  /** An entry computed for a peer of `c` over the peers of `a` is that of someone it is linked to in the end. */
  lemma ListWitnessed(c0: Cluster, c: Cluster, a: Cluster, i: nat, e: PeerConfiguration)
    requires Inv(c0, c) && Inv(c0, a) && i < |c.peers| && c.peers[i].status.address != ""
    requires Computable(c.peers[i], a.peers) && e in Entries(c.peers[i], a.peers, a.bindings)
    ensures Splits(c0.peers[i].spec.endpoint)
    ensures exists q <- Placed(c0) :: Linked(Placed(c0)[i], q) && Splits(q.spec.endpoint)
  {
    var q := MeshFacts.EntrySource(c.peers[i], a.peers, a.bindings, e);
    var k: nat :| k < |a.peers| && a.peers[k] == q;
    PlacedLinks(c0, c, a, i, k);
    assert Placed(c0)[k] in Placed(c0) && Splits(Placed(c0)[k].spec.endpoint);
  }

  lemma StepWitnessed(c0: Cluster, c: Cluster, e: Event, i: nat)
    requires Inv(c0, c) && i < |c.peers| && Witnessed(c0, c, i)
    ensures SameSpecs(c0, Step(c, e)) && Witnessed(c0, Step(c, e), i)
  {
    StepInv(c0, c, e);
    StepIs(c, e);
    SameSpecsNames(c0, c);
    var ch := ChangeOf(c, e);
    if ch.PeerChange? && ch.i == i {
      PeerWriteShape(c, i, ch.status);
      if c.peers[i].status.address != "" && c.peers[i].status.network != "" && ch.status.peers != [] {
        ListWitnessed(c0, c, c, i, ch.status.peers[0]);
      }
    }
  }

  lemma {:induction false} RunWitnessed(c0: Cluster, c: Cluster, es: seq<Event>, i: nat)
    requires Inv(c0, c) && i < |c.peers| && Witnessed(c0, c, i)
    ensures SameSpecs(c0, Run(c, es)) && Witnessed(c0, Run(c, es), i)
    decreases |es|
  {
    if es != [] {
      StepInv(c0, c, es[0]);
      StepWitnessed(c0, c, es[0], i);
      RunWitnessed(c0, Step(c, es[0]), es[1..], i);
    }
  }

  /** The resting list of a peer that is not jammed: the final mesh, or nothing when that cannot be computed. */
  lemma UnjammedList(c0: Cluster, es: seq<Event>, i: nat)
    requires Pristine(c0) && i < |c0.peers| && !Jammed(c0, i) && Quiescent(Run(c0, es))
    ensures |Run(c0, es).peers| == |c0.peers|
    ensures Run(c0, es).peers[i].status.peers == match FinalPeers(c0, i) { case Ok(cfgs) => cfgs case Err => [] }
  {
    Confluence(c0, es);
    PristineInv(c0);
    assert c0.peers[i] in c0.peers;
    RunWitnessed(c0, c0, es, i);
  }

  // ---- A jammed peer ----

  /** Addresses stay, and so do networks and entries. */
  lemma StatusSticks(c: Cluster, i: nat, s: PeerStatus, x: nat)
    requires WellFormed(c) && i < |c.peers| && NextStatus(c.peers[i], c) == Ok(s) && s != c.peers[i].status
    requires x < |c.peers|
    ensures var d := PutPeer(c, i, s);
            && (c.peers[x].status.network != "" ==> d.peers[x].status.network == c.peers[x].status.network)
            && (c.peers[x].status.address != "" ==> d.peers[x].status.address == c.peers[x].status.address)
            && (c.peers[x].status.network != "" && HasEntry(c, x) ==> HasEntry(d, x))
  {
    PeerWriteShape(c, i, s);
  }

  lemma StepSticks(c0: Cluster, c: Cluster, e: Event, x: nat)
    requires Inv(c0, c) && x < |c.peers|
    ensures var d := Step(c, e);
            && |d.peers| == |c.peers|
            && (c.peers[x].status.network != "" ==> d.peers[x].status.network == c.peers[x].status.network)
            && (c.peers[x].status.address != "" ==> d.peers[x].status.address == c.peers[x].status.address)
            && (c.peers[x].status.network != "" && HasEntry(c, x) ==> HasEntry(d, x))
  {
    StepIs(c, e);
    SameSpecsNames(c0, c);
    match ChangeOf(c, e)
    case Nothing =>
    case PeerChange(i, s) => StatusSticks(c, i, s, x);
    case NetworkChange(j) => EntrySticks(c, j, x);
  }

  lemma EntrySticks(c: Cluster, j: nat, x: nat)
    requires j < |c.networks| && x < |c.peers|
    ensures HasEntry(c, x) ==> HasEntry(Apply(c, NetworkChange(j)), x)
  {
    FindAfterPut(c, j, NetworkStatus(NextAllocations(c.networks[j], c.peers)), c.peers[x].status.network);
    Allocations.NamesAppend(c.networks[j].status.allocations, Fresh(c.networks[j], c.peers));
  }

  /** Reconciling peer `x` touches no other peer and no network. */
  lemma PeerEventTouches(c0: Cluster, c: Cluster, x: nat)
    requires Inv(c0, c) && x < |c.peers|
    ensures var d := Step(c, PeerEvent(c0.peers[x].meta.name));
            && d.networks == c.networks && |d.peers| == |c.peers|
            && (forall y: nat :: y < |c.peers| && y != x ==> d.peers[y] == c.peers[y])
            && (c.peers[x].status.network == "" || c.peers[x].status.address == "" ==>
                  d.peers[x].status.peers == c.peers[x].status.peers)
  {
    var e := PeerEvent(c0.peers[x].meta.name);
    StepIs(c, e);
    PeerChangeAt(c0, c, x);
    SameSpecsNames(c0, c);
    if ChangeOf(c, e).PeerChange? {
      PeerWriteShape(c, x, ChangeOf(c, e).status);
    }
  }

  /** Reconciling an unaddressed peer that has an entry gives it its home address. */
  lemma GetsAddress(c0: Cluster, c: Cluster, x: nat)
    requires Inv(c0, c) && x < |c.peers| && HasEntry(c, x) && c.peers[x].status.network != ""
    requires c.peers[x].status.address == ""
    ensures Step(c, PeerEvent(c0.peers[x].meta.name)).peers[x].status
            == c.peers[x].status.(address := HomeAddress(c0, c0.peers[x].meta))
  {
    StepIs(c, PeerEvent(c0.peers[x].meta.name));
    PeerChangeAt(c0, c, x);
    ReadsEntry(c0, c, x);
  }

  /** Peers `x` and `y` have the given statuses and no other peer has an address. */
  ghost predicate Only(c0: Cluster, c: Cluster, x: nat, sx: PeerStatus, y: nat, sy: PeerStatus) {
    && Inv(c0, c)
    && x < |c.peers| && y < |c.peers| && x != y
    && c.peers[x].status == sx
    && c.peers[y].status == sy
    && forall z: nat :: z < |c.peers| && z != x && z != y ==> c.peers[z].status.address == ""
  }

  function PlacedStatus(c0: Cluster, x: nat): PeerStatus
    requires x < |c0.peers|
  {
    PeerStatus("", HomeName(c0, c0.peers[x].meta), [])
  }

  lemma PlaceStep(c0: Cluster, c: Cluster, x: nat, y: nat, sy: PeerStatus)
    requires Only(c0, c, x, EMPTY_STATUS, y, sy)
    ensures Only(c0, Step(c, PeerEvent(c0.peers[x].meta.name)), x, PlacedStatus(c0, x), y, sy)
  {
    var e := PeerEvent(c0.peers[x].meta.name);
    StepInv(c0, c, e);
    PeerEventTouches(c0, c, x);
    StepIs(c, e);
    PeerChangeAt(c0, c, x);
    SameHome(c0, c, c.peers[x].meta);
  }

  lemma EntriesStep(c0: Cluster, c: Cluster, x: nat, y: nat, j: nat)
    requires x < |c0.peers| && y < |c0.peers| && j < |c.networks|
    requires Only(c0, c, x, PlacedStatus(c0, x), y, PlacedStatus(c0, y))
    requires c.peers[x].status.network == c.peers[y].status.network == c.networks[j].name
    ensures var d := Step(c, NetworkEvent(c0.networks[j].name));
            && Only(c0, d, x, PlacedStatus(c0, x), y, PlacedStatus(c0, y))
            && HasEntry(d, x) && HasEntry(d, y)
  {
    var e := NetworkEvent(c0.networks[j].name);
    StepInv(c0, c, e);
    GetsEntry(c0, c, x, j);
    GetsEntry(c0, c, y, j);
    SameSpecsNames(c0, Step(c, e));
    PositionUnique(NetworkNames(Step(c, e).networks), j);
  }

  lemma AddressStep(c0: Cluster, c: Cluster, x: nat, y: nat, sy: PeerStatus)
    requires x < |c0.peers| && HomeName(c0, c0.peers[x].meta) != "" && sy.network != ""
    requires Only(c0, c, x, PlacedStatus(c0, x), y, sy) && HasEntry(c, x) && HasEntry(c, y)
    ensures var d := Step(c, PeerEvent(c0.peers[x].meta.name));
            Only(c0, d, x, Placed(c0)[x].status, y, sy) && HasEntry(d, x) && HasEntry(d, y)
  {
    var e := PeerEvent(c0.peers[x].meta.name);
    StepInv(c0, c, e);
    PeerEventTouches(c0, c, x);
    StepSticks(c0, c, e, x);
    StepSticks(c0, c, e, y);
    GetsAddress(c0, c, x);
  }

  lemma RunSnoc(c: Cluster, es: seq<Event>, e: Event)
    ensures Run(c, es + [e]) == Step(Run(c, es), e)
  {
    RunAppend(c, es, [e]);
    var d := Run(c, es);
    assert [e][1..] == [];
    assert Run(d, [e]) == Run(Step(d, e), []);
  }

  /** From the start, two peers of one network can be addressed before any other peer is and before any list is made. */
  lemma ReadyPair(c0: Cluster, x: nat, y: nat) returns (es: seq<Event>)
    requires Pristine(c0) && x < |c0.peers| && y < |c0.peers| && x != y
    requires HomeName(c0, c0.peers[x].meta) == HomeName(c0, c0.peers[y].meta) != ""
    ensures Only(c0, Run(c0, es), x, Placed(c0)[x].status, y, Placed(c0)[y].status)
  {
    PristineInv(c0);
    assert forall z: nat :: z < |c0.peers| ==> c0.peers[z] in c0.peers;
    var px, py := PeerEvent(c0.peers[x].meta.name), PeerEvent(c0.peers[y].meta.name);
    var j := HomeGrants(c0, c0.peers[x].meta);
    es := [];
    PlaceStep(c0, Run(c0, es), x, y, EMPTY_STATUS);
    RunSnoc(c0, es, px);
    es := es + [px];
    PlaceStep(c0, Run(c0, es), y, x, PlacedStatus(c0, x));
    RunSnoc(c0, es, py);
    es := es + [py];
    EntriesStep(c0, Run(c0, es), x, y, j);
    RunSnoc(c0, es, NetworkEvent(c0.networks[j].name));
    es := es + [NetworkEvent(c0.networks[j].name)];
    AddressStep(c0, Run(c0, es), x, y, PlacedStatus(c0, y));
    RunSnoc(c0, es, px);
    es := es + [px];
    AddressStep(c0, Run(c0, es), y, x, Placed(c0)[x].status);
    RunSnoc(c0, es, py);
    es := es + [py];
  }

  /** With an unsplittable neighbour addressed, the peer's list stays as it is. */
  lemma {:induction false} Stuck(c0: Cluster, c: Cluster, es: seq<Event>, i: nat, r: nat)
    requires Inv(c0, c) && i < |c.peers| && r < |c.peers|
    requires c.peers[i].status.network != "" && c.peers[i].status.address != "" && c.peers[r].status.network != ""
    requires Neighbour(c.peers[i], c.peers[r]) && !Splits(c.peers[r].spec.endpoint)
    ensures |Run(c, es).peers| == |c.peers|
    ensures Run(c, es).peers[i].status.peers == c.peers[i].status.peers
    decreases |es|
  {
    if es != [] {
      var d := Step(c, es[0]);
      StepInv(c0, c, es[0]);
      StepSticks(c0, c, es[0], i);
      StepSticks(c0, c, es[0], r);
      StepKeepsSpecs(c, es[0]);
      StuckStep(c, es[0], i, r);
      Stuck(c0, d, es[1..], i, r);
    }
  }

  lemma StuckStep(c: Cluster, e: Event, i: nat, r: nat)
    requires i < |c.peers| && r < |c.peers|
    requires c.peers[i].status.network != "" && c.peers[i].status.address != ""
    requires Neighbour(c.peers[i], c.peers[r]) && !Splits(c.peers[r].spec.endpoint)
    ensures |Step(c, e).peers| == |c.peers| && Step(c, e).peers[i].status.peers == c.peers[i].status.peers
  {
    StepIs(c, e);
    assert c.peers[r] in c.peers;
  }

  /** With a linked neighbour addressed, a list that has entries keeps having some. */
  lemma {:induction false} StaysListed(c0: Cluster, c: Cluster, es: seq<Event>, i: nat, k: nat)
    requires Inv(c0, c) && i < |c.peers| && k < |c.peers|
    requires c.peers[i].status.network != "" && c.peers[i].status.address != "" && c.peers[k].status.network != ""
    requires Linked(c.peers[i], c.peers[k]) && c.peers[i].status.peers != []
    ensures |Run(c, es).peers| == |c.peers|
    ensures Run(c, es).peers[i].status.peers != []
    decreases |es|
  {
    if es != [] {
      var d := Step(c, es[0]);
      StepInv(c0, c, es[0]);
      StepSticks(c0, c, es[0], i);
      StepSticks(c0, c, es[0], k);
      StepKeepsSpecs(c, es[0]);
      ListedStep(c0, c, es[0], i, k);
      StaysListed(c0, d, es[1..], i, k);
    }
  }

  lemma ListedStep(c0: Cluster, c: Cluster, e: Event, i: nat, k: nat)
    requires Inv(c0, c) && i < |c.peers| && k < |c.peers|
    requires c.peers[i].status.network != "" && c.peers[i].status.address != ""
    requires Linked(c.peers[i], c.peers[k]) && c.peers[i].status.peers != []
    ensures |Step(c, e).peers| == |c.peers| && Step(c, e).peers[i].status.peers != []
  {
    StepIs(c, e);
    SameSpecsNames(c0, c);
    var ch := ChangeOf(c, e);
    if ch.PeerChange? && ch.i == i {
      PeerWriteShape(c, i, ch.status);
      MeshFacts.EntryPresent(c.peers[i], c.peers, c.bindings, c.peers[k]);
    }
  }

  lemma PlacedAt(c0: Cluster, q: Peer) returns (k: nat)
    requires q in Placed(c0)
    ensures k < |c0.peers| && Placed(c0)[k] == q
  {
    k :| k < |c0.peers| && Placed(c0)[k] == q;
  }

  /** A run that rests with an empty list: the bad neighbour is addressed before the list is computed. */
  lemma EmptyRun(c0: Cluster, i: nat) returns (es: seq<Event>)
    requires Pristine(c0) && i < |c0.peers| && Jammed(c0, i)
    ensures Quiescent(Run(c0, es)) && |Run(c0, es).peers| == |c0.peers|
    ensures Run(c0, es).peers[i].status.peers == []
  {
    var bad :| bad in Placed(c0) && Neighbour(Placed(c0)[i], bad) && !Splits(bad.spec.endpoint);
    var r := PlacedAt(c0, bad);
    var ready := ReadyPair(c0, i, r);
    var c := Run(c0, ready);
    var rest := Settles(c) by {
      SameSpecsNames(c0, c);
    }
    Stuck(c0, c, rest, i, r);
    RunAppend(c0, ready, rest);
    es := ready + rest;
  }

  /** A run that rests with entries: the list is computed while only a good neighbour is addressed. */
  lemma ListedRun(c0: Cluster, i: nat) returns (es: seq<Event>)
    requires Pristine(c0) && i < |c0.peers| && Jammed(c0, i)
    ensures Quiescent(Run(c0, es)) && |Run(c0, es).peers| == |c0.peers|
    ensures Run(c0, es).peers[i].status.peers != []
  {
    var good :| good in Placed(c0) && Linked(Placed(c0)[i], good) && Splits(good.spec.endpoint);
    var k := PlacedAt(c0, good);
    var ready := ReadyPair(c0, i, k);
    var c := Run(c0, ready);
    var e := PeerEvent(c0.peers[i].meta.name);
    var d := Step(c, e);
    FirstList(c0, c, i, k);
    StepInv(c0, c, e);
    StepSticks(c0, c, e, i);
    StepSticks(c0, c, e, k);
    var rest := Settles(d) by {
      SameSpecsNames(c0, d);
    }
    StaysListed(c0, d, rest, i, k);
    RunSnoc(c0, ready, e);
    RunAppend(c0, ready + [e], rest);
    es := ready + [e] + rest;
  }

  lemma OnlyPairComputable(c0: Cluster, c: Cluster, i: nat, k: nat)
    requires i < |c0.peers| && k < |c0.peers|
    requires Only(c0, c, i, Placed(c0)[i].status, k, Placed(c0)[k].status)
    requires Splits(c0.peers[i].spec.endpoint) && Splits(c0.peers[k].spec.endpoint)
    ensures Computable(c.peers[i], c.peers)
  {
    forall q | q in c.peers && Neighbour(c.peers[i], q) ensures Splits(q.spec.endpoint) {
      var z: nat :| z < |c.peers| && c.peers[z] == q;
    }
  }

  /** With just these two addressed, the mesh is computable and lists the neighbour. */
  lemma FirstList(c0: Cluster, c: Cluster, i: nat, k: nat)
    requires i < |c0.peers| && k < |c0.peers|
    requires Only(c0, c, i, Placed(c0)[i].status, k, Placed(c0)[k].status)
    requires Placed(c0)[i].status.network != "" && Placed(c0)[i].status.address != ""
    requires Linked(Placed(c0)[i], Placed(c0)[k]) && Splits(Placed(c0)[i].spec.endpoint)
    requires Splits(Placed(c0)[k].spec.endpoint)
    ensures var d := Step(c, PeerEvent(c0.peers[i].meta.name));
            |d.peers| == |c.peers| && d.peers[i].status.peers != [] && Linked(d.peers[i], d.peers[k])
  {
    var p := c.peers[i];
    StepIs(c, PeerEvent(c0.peers[i].meta.name));
    PeerChangeAt(c0, c, i);
    OnlyPairComputable(c0, c, i, k);
    MeshFacts.EntryPresent(p, c.peers, c.bindings, c.peers[k]);
    var j := HomeGrants(c0, c0.peers[i].meta);
    NetworkOfHome(c0, c, j, c0.peers[i].meta);
    assert NextStatus(p, c) == Ok(p.status.(peers := Entries(p, c.peers, c.bindings)));
  }

  /** A peer's resting list is the same for every order of reconciles exactly when the peer is not jammed. */
  lemma ListDeterminedIffNotJammed(c0: Cluster, i: nat)
    requires Pristine(c0) && i < |c0.peers|
    ensures !Jammed(c0, i) <==>
              forall es, fs :: Quiescent(Run(c0, es)) && Quiescent(Run(c0, fs)) ==>
                && |Run(c0, es).peers| == |Run(c0, fs).peers| == |c0.peers|
                && Run(c0, es).peers[i].status.peers == Run(c0, fs).peers[i].status.peers
  {
    if Jammed(c0, i) {
      var es := EmptyRun(c0, i);
      var fs := ListedRun(c0, i);
      assert Run(c0, es).peers[i].status.peers != Run(c0, fs).peers[i].status.peers;
    } else {
      forall es, fs | Quiescent(Run(c0, es)) && Quiescent(Run(c0, fs))
        ensures |Run(c0, es).peers| == |Run(c0, fs).peers| == |c0.peers|
        ensures Run(c0, es).peers[i].status.peers == Run(c0, fs).peers[i].status.peers
      {
        UnjammedList(c0, es, i);
        UnjammedList(c0, fs, i);
      }
    }
  }
}
