/** Which peer lists watch events alone bring to their final contents. */
module WatchLists {
  import opened Common
  import opened Text
  import opened Api
  import opened ApiServer
  import opened PeerController
  import opened Runs
  import opened Convergence
  import opened Watch
  import Divergence
  import MeshFacts

  /** A peer that ends up with an address and with someone to list. */
  ghost predicate Linkable(c0: Cluster, x: nat)
    requires x < |c0.peers|
  {
    var p := Placed(c0)[x];
    p.status.network != "" && p.status.address != "" && exists q <- Placed(c0) :: Linked(p, q)
  }

  // ---- Peers without links ----

  lemma {:induction false} ServedWitnessed(c0: Cluster, w: Watched, es: seq<Event>, v: Watched, x: nat)
    requires Inv(c0, w.c) && x < |w.c.peers| && Divergence.Witnessed(c0, w.c, x) && Served(w, es, v)
    ensures Inv(c0, v.c) && x < |v.c.peers| && Divergence.Witnessed(c0, v.c, x)
    decreases |es|
  {
    if es != [] {
      StepInv(c0, w.c, es[0]);
      Divergence.StepWitnessed(c0, w.c, es[0], x);
      ServedWitnessed(c0, Serve(w, es[0]), es[1..], v, x);
    }
  }

  lemma UnlinkedEmpty(p: Peer, peers: seq<Peer>, bindings: seq<RouteBinding>)
    requires forall q <- peers :: !Linked(p, q)
    ensures Entries(p, peers, bindings) == []
  {
    if Entries(p, peers, bindings) != [] {
      var q := MeshFacts.EntrySource(p, peers, bindings, Entries(p, peers, bindings)[0]);
      assert false;
    }
  }

  lemma UnlinkedFinal(c0: Cluster, c: Cluster, x: nat)
    requires Inv(c0, c) && Settled(c0, c) && x < |c.peers| && Divergence.Witnessed(c0, c, x)
    requires FinalPeers(c0, x).Ok? && !Linkable(c0, x)
    ensures c.peers[x].status.peers == FinalPeers(c0, x).value == []
  {
    assert PeerTrue(c0, c.peers[x]);
    var p := Placed(c0)[x];
    if p.status.network != "" && p.status.address != "" {
      UnlinkedEmpty(p, Placed(c0), c0.bindings);
    }
  }

  /** A peer without links ends with the empty list, which is its final one. */
  lemma UnlinkedSettles(c0: Cluster, es: seq<Event>, v: Watched, x: nat)
    requires Pristine(c0) && x < |c0.peers| && FinalPeers(c0, x).Ok? && !Linkable(c0, x)
    requires Reached(c0, es, v) && Idle(v)
    ensures x < |v.c.peers| && v.c.peers[x].status.peers == FinalPeers(c0, x).value
  {
    PristineInv(c0);
    assert c0.peers[x] in c0.peers;
    ServedWitnessed(c0, Started(c0), es, v, x);
    WatchEventsSettle(c0, es, v);
    UnlinkedFinal(c0, v.c, x);
  }

  // ---- A list that misses a neighbour ----

  /** Peer `x` does not list peer `y`. */
  ghost predicate Unlisted(c: Cluster, x: nat, y: nat) {
    x < |c.peers| && y < |c.peers| && forall e <- c.peers[x].status.peers :: e.name != c.peers[y].meta.name
  }

  /** A final list names every peer that it is linked to. */
  lemma UnlistedNotFinal(c0: Cluster, c: Cluster, x: nat, y: nat)
    requires SameSpecs(c0, c) && Unlisted(c, x, y) && FinalPeers(c0, x).Ok?
    requires Placed(c0)[x].status.network != "" && Placed(c0)[x].status.address != ""
    requires Linked(Placed(c0)[x], Placed(c0)[y])
    ensures c.peers[x].status.peers != FinalPeers(c0, x).value
  {
    MeshFacts.EntryPresent(Placed(c0)[x], Placed(c0), c0.bindings, Placed(c0)[y]);
  }

  lemma MeshUnlists(c: Cluster, x: nat, y: nat)
    requires WellFormed(c) && x < |c.peers| && y < |c.peers| && c.peers[y].status.address == ""
    ensures forall e <- Entries(c.peers[x], c.peers, c.bindings) :: e.name != c.peers[y].meta.name
  {
    forall e | e in Entries(c.peers[x], c.peers, c.bindings) ensures e.name != c.peers[y].meta.name {
      var q := MeshFacts.EntrySource(c.peers[x], c.peers, c.bindings, e);
      if q.meta.name == c.peers[y].meta.name {
        MeshFacts.SameName(c.peers, q, c.peers[y]);
        assert false;
      }
    }
  }

  /** While `y` has no address, nobody lists it. */
  lemma UnlistedStep(c0: Cluster, c: Cluster, e: Event, x: nat, y: nat)
    requires Inv(c0, c) && Unlisted(c, x, y) && c.peers[y].status.address == ""
    ensures Unlisted(Step(c, e), x, y)
  {
    StepIs(c, e);
    SameSpecsNames(c0, c);
    if ChangeOf(c, e).PeerChange? && ChangeOf(c, e).i == x {
      PeerWriteShape(c, x, ChangeOf(c, e).status);
      MeshUnlists(c, x, y);
    }
  }

  /** Only its own request changes a peer. */
  lemma OtherRequestSpares(c0: Cluster, c: Cluster, e: Event, y: nat)
    requires Inv(c0, c) && y < |c.peers| && e != PeerEvent(c.peers[y].meta.name)
    ensures y < |Step(c, e).peers| && Step(c, e).peers[y] == c.peers[y]
  {
    StepIs(c, e);
    SameSpecsNames(c0, c);
    if ChangeOf(c, e).PeerChange? {
      assert PeerNames(c.peers)[ChangeOf(c, e).i] != PeerNames(c.peers)[y];
    }
  }

  /** Every waiting request but that of `y` would change nothing. */
  ghost predicate IdleBut(w: Watched, y: nat) {
    y < |w.c.peers| && forall e <- w.pending :: e == PeerEvent(w.c.peers[y].meta.name) || Step(w.c, e) == w.c
  }

  lemma ServeDecreases(c0: Cluster, w: Watched, e: Event)
    requires Inv(c0, w.c) && Step(w.c, e) != w.c
    ensures Measure(Serve(w, e).c) < Measure(w.c)
  {
    SameSpecsNames(c0, w.c);
    WriteDecreases(w.c, e);
  }

  /** Everything can be served until only the request of `y` could still change something. */
  lemma {:induction false} ServeOthers(c0: Cluster, w: Watched, x: nat, y: nat) returns (es: seq<Event>, v: Watched)
    requires WatchInv(c0, w) && Unlisted(w.c, x, y) && w.c.peers[y].status.address == ""
    ensures Served(w, es, v) && WatchInv(c0, v) && IdleBut(v, y)
    ensures Unlisted(v.c, x, y) && v.c.peers[y] == w.c.peers[y]
    decreases Measure(w.c)
  {
    hide Serve, Inv;
    if IdleBut(w, y) {
      es, v := [], w;
    } else {
      var e :| e in w.pending && e != PeerEvent(w.c.peers[y].meta.name) && Step(w.c, e) != w.c;
      ServeInv(c0, w, e);
      ServeDecreases(c0, w, e);
      UnlistedStep(c0, w.c, e, x, y);
      OtherRequestSpares(c0, w.c, e, y);
      ServeIsStep(w, e);
      var rest;
      rest, v := ServeOthers(c0, Serve(w, e), x, y);
      ServedCons(w, e, rest, v);
      es := [e] + rest;
    }
  }

  lemma ServeIsStep(w: Watched, e: Event)
    ensures Serve(w, e).c == Step(w.c, e)
    ensures Step(w.c, e) == w.c ==> Serve(w, e).pending == w.pending - {e} + Retried(w.c, e)
  {
    StepIs(w.c, e);
  }

  // ---- When only y's request is left ----

  /** A computable final mesh never fails on the way. */
  lemma ComputableBefore(c0: Cluster, c: Cluster, x: nat)
    requires Inv(c0, c) && x < |c.peers| && Computable(Placed(c0)[x], Placed(c0)) && c.peers[x].status.address != ""
    ensures Computable(c.peers[x], c.peers)
  {
    assert PeerTrue(c0, c.peers[x]);
    forall q | q in c.peers && Neighbour(c.peers[x], q) ensures Splits(q.spec.endpoint) {
      var k: nat :| k < |c.peers| && c.peers[k] == q;
      assert PeerTrue(c0, q);
      assert Placed(c0)[k] in Placed(c0) && Neighbour(Placed(c0)[x], Placed(c0)[k]);
    }
  }

  lemma NeverRetried(c0: Cluster, c: Cluster, x: nat)
    requires Inv(c0, c) && x < |c.peers| && Computable(Placed(c0)[x], Placed(c0))
    ensures Retried(c, PeerEvent(c.peers[x].meta.name)) == {}
  {
    SameSpecsNames(c0, c);
    PositionUnique(PeerNames(c.peers), x);
    if c.peers[x].status.address != "" {
      ComputableBefore(c0, c, x);
    }
  }

  /** If the request of `x` waits and changes nothing, it can be served away. */
  lemma DropRequest(c0: Cluster, w: Watched, x: nat, y: nat) returns (es: seq<Event>, v: Watched)
    requires WatchInv(c0, w) && IdleBut(w, y) && x < |w.c.peers| && x != y && Computable(Placed(c0)[x], Placed(c0))
    ensures Served(w, es, v) && WatchInv(c0, v) && IdleBut(v, y) && v.c == w.c
    ensures PeerEvent(w.c.peers[x].meta.name) !in v.pending
  {
    hide Serve, Inv;
    var e := PeerEvent(w.c.peers[x].meta.name);
    if e in w.pending {
      OtherName(c0, w, x, y);
      NeverRetried(c0, w.c, x);
      ServeIsStep(w, e);
      ServeInv(c0, w, e);
      ServedOne(w, e);
      es, v := [e], Serve(w, e);
    } else {
      es, v := [], w;
    }
  }

  lemma OtherName(c0: Cluster, w: Watched, x: nat, y: nat)
    requires WatchInv(c0, w) && x < |w.c.peers| && y < |w.c.peers| && x != y
    ensures w.c.peers[x].meta.name != w.c.peers[y].meta.name
  {
    SameSpecsNames(c0, w.c);
    assert PeerNames(w.c.peers)[x] != PeerNames(w.c.peers)[y];
  }

  /** Then nothing is missing but the address of `y`. */
  lemma OnlyOneOwed(c0: Cluster, w: Watched, y: nat, z: nat)
    requires WatchInv(c0, w) && IdleBut(w, y) && z < |w.c.peers|
    ensures var f := Owed(c0, w.c, z); f == None || (z == y && f == Some(PeerEvent(w.c.peers[y].meta.name)))
  {
    var f := Owed(c0, w.c, z);
    if f.Some? && Step(w.c, f.value) == w.c {
      QuietServe(c0, w, f.value, z);
    } else if f.Some? {
      OwedKinds(c0, w.c, z);
      if z != y {
        OtherName(c0, w, z, y);
      }
    }
  }

  lemma PlacedWithEntry(c0: Cluster, w: Watched, y: nat)
    requires WatchInv(c0, w) && IdleBut(w, y) && w.c.peers[y].status.network == HomeName(c0, w.c.peers[y].meta) != ""
    ensures HasEntry(w.c, y)
  {
    OnlyOneOwed(c0, w, y, y);
  }

  /** Serving `y` now completes networks, addresses and allocations, and requests nobody else but its network. */
  lemma ServeLast(c0: Cluster, w: Watched, x: nat, y: nat) returns (v: Watched)
    requires WatchInv(c0, w) && IdleBut(w, y) && x < |w.c.peers| && x != y
    requires w.c.peers[y].status.network == HomeName(c0, w.c.peers[y].meta) != "" && w.c.peers[y].status.address == ""
    requires HomeAddress(c0, w.c.peers[y].meta) != "" && PeerEvent(w.c.peers[x].meta.name) !in w.pending
    ensures Served(w, [PeerEvent(w.c.peers[y].meta.name)], v) && WatchInv(c0, v)
    ensures DoneBefore(c0, v.c, 4)
    ensures x < |v.c.peers| && v.c.peers[x] == w.c.peers[x] && PeerEvent(v.c.peers[x].meta.name) !in v.pending
    ensures y < |v.c.peers| && v.c.peers[y].meta == w.c.peers[y].meta
  {
    var e := PeerEvent(w.c.peers[y].meta.name);
    PlacedWithEntry(c0, w, y);
    AddressedByStep(c0, w.c, y);
    assert Owed(c0, w.c, y) == Some(e);
    v := Serve(w, e);
    ServeInv(c0, w, e);
    ServedOne(w, e);
    forall z: nat | z < |v.c.peers| ensures Owed(c0, v.c, z) == None {
      NoneOwedAfter(c0, w, y, z);
    }
    DrainedIsDone(c0, v.c);
    OtherName(c0, w, x, y);
    OtherRequestSpares(c0, w.c, e, x);
    RequestsOf(c0, w.c, y, w.c.peers[x].meta.name);
  }

  lemma AddressedByStep(c0: Cluster, c: Cluster, y: nat)
    requires Inv(c0, c) && y < |c.peers| && HasEntry(c, y)
    requires c.peers[y].status.network == HomeName(c0, c.peers[y].meta) != "" && c.peers[y].status.address == ""
    ensures var d := Step(c, PeerEvent(c.peers[y].meta.name));
            && d.networks == c.networks && y < |d.peers| && d.peers[y].meta == c.peers[y].meta
            && d.peers[y].status == c.peers[y].status.(address := HomeAddress(c0, c.peers[y].meta))
  {
    Divergence.GetsAddress(c0, c, y);
    Divergence.PeerEventTouches(c0, c, y);
    StepKeepsSpecs(c, PeerEvent(c.peers[y].meta.name));
  }

  lemma NoneOwedAfter(c0: Cluster, w: Watched, y: nat, z: nat)
    requires WatchInv(c0, w) && IdleBut(w, y) && HasEntry(w.c, y)
    requires w.c.peers[y].status.network == HomeName(c0, w.c.peers[y].meta) != "" && w.c.peers[y].status.address == ""
    requires z < |w.c.peers|
    ensures var d := Step(w.c, PeerEvent(w.c.peers[y].meta.name));
            SameSpecs(c0, d) && z < |d.peers| && Owed(c0, d, z) == None
  {
    var e := PeerEvent(w.c.peers[y].meta.name);
    StepInv(c0, w.c, e);
    AddressedByStep(c0, w.c, y);
    if z != y {
      OtherName(c0, w, z, y);
      OtherRequestSpares(c0, w.c, e, z);
      OnlyOneOwed(c0, w, y, z);
      OwedSame(c0, w.c, Step(w.c, e), z);
    }
  }

  /** A served peer requests no other peer. */
  lemma RequestsOf(c0: Cluster, c: Cluster, y: nat, name: string)
    requires Inv(c0, c) && y < |c.peers| && name != c.peers[y].meta.name
    ensures PeerEvent(name) !in Requests(c, PeerEvent(c.peers[y].meta.name)) +
        Retried(c, PeerEvent(c.peers[y].meta.name))
  {
    SameSpecsNames(c0, c);
    PositionUnique(PeerNames(c.peers), y);
  }

  /** When all is settled, serving a request other than that of `x` neither changes `x` nor requests it. */
  lemma SettledServe(c0: Cluster, w: Watched, e: Event, x: nat)
    requires WatchInv(c0, w) && DoneBefore(c0, w.c, 4) && x < |w.c.peers|
    requires e in w.pending && PeerEvent(w.c.peers[x].meta.name) !in w.pending
    ensures WatchInv(c0, Serve(w, e)) && DoneBefore(c0, Serve(w, e).c, 4)
    ensures x < |Serve(w, e).c.peers| && Serve(w, e).c.peers[x] == w.c.peers[x]
    ensures PeerEvent(w.c.peers[x].meta.name) !in Serve(w, e).pending
  {
    ServeInv(c0, w, e);
    StepKeepsBefore(c0, w.c, e, 4);
    OtherRequestSpares(c0, w.c, e, x);
    SettledRequests(c0, w.c, e, w.c.peers[x].meta.name);
  }

  lemma SettledNoNetworkWrite(c0: Cluster, c: Cluster, e: Event)
    requires Inv(c0, c) && DoneBefore(c0, c, 4)
    ensures !ChangeOf(c, e).NetworkChange?
  {
    if e.NetworkEvent? && Position(NetworkNames(c.networks), e.name).Some? {
      DoneNetworkRests(c0, c, Position(NetworkNames(c.networks), e.name).value);
    }
  }

  lemma PeerRequestsSelf(c: Cluster, e: Event, name: string)
    requires !ChangeOf(c, e).NetworkChange? && e != PeerEvent(name)
    ensures PeerEvent(name) !in Requests(c, e) + Retried(c, e)
  {
    hide NextStatus, PeerFails;
  }

  lemma SettledRequests(c0: Cluster, c: Cluster, e: Event, name: string)
    requires Inv(c0, c) && DoneBefore(c0, c, 4) && e != PeerEvent(name)
    ensures PeerEvent(name) !in Requests(c, e) + Retried(c, e)
  {
    SettledNoNetworkWrite(c0, c, e);
    PeerRequestsSelf(c, e, name);
  }

  /** So everything can be served until no request would change anything, and `x` stays as it is. */
  lemma {:induction false} ServeRest(c0: Cluster, w: Watched, x: nat) returns (es: seq<Event>, v: Watched)
    requires WatchInv(c0, w) && DoneBefore(c0, w.c, 4) && x < |w.c.peers|
    requires PeerEvent(w.c.peers[x].meta.name) !in w.pending
    ensures Served(w, es, v) && Idle(v) && WatchInv(c0, v)
    ensures x < |v.c.peers| && v.c.peers[x] == w.c.peers[x]
    decreases Measure(w.c)
  {
    hide Serve, Inv, DoneBefore;
    if Idle(w) {
      es, v := [], w;
    } else {
      var e :| e in w.pending && Step(w.c, e) != w.c;
      SettledServe(c0, w, e, x);
      ServeDecreases(c0, w, e);
      var rest;
      rest, v := ServeRest(c0, Serve(w, e), x);
      ServedCons(w, e, rest, v);
      es := [e] + rest;
    }
  }

  // ---- Main results ----

  lemma StartPlaced(c0: Cluster, x: nat, y: nat) returns (w: Watched)
    requires Pristine(c0) && x < |c0.peers| && y < |c0.peers| && x != y
    ensures y < |w.c.peers| && Served(Started(c0), [PeerEvent(c0.peers[y].meta.name)], w) && WatchInv(c0, w)
    ensures w.c.peers[y].meta == c0.peers[y].meta && w.c.peers[y].status.address == "" && Unlisted(w.c, x, y)
    ensures w.c.peers[y].status.network == HomeName(c0, c0.peers[y].meta)
  {
    var e := PeerEvent(c0.peers[y].meta.name);
    assert c0.peers[y] in c0.peers && c0.peers[x] in c0.peers;
    StartedInv(c0);
    w := Serve(Started(c0), e);
    ServeInv(c0, Started(c0), e);
    ServedOne(Started(c0), e);
    Places1(c0, c0, y);
    UnlistedStep(c0, c0, e, x, y);
    StepKeepsSpecs(c0, e);
    StillUnaddressed(c0, y);
  }

  lemma StillUnaddressed(c0: Cluster, y: nat)
    requires Pristine(c0) && y < |c0.peers|
    ensures y < |Step(c0, PeerEvent(c0.peers[y].meta.name)).peers|
    ensures Step(c0, PeerEvent(c0.peers[y].meta.name)).peers[y].status.address == ""
  {
    var e := PeerEvent(c0.peers[y].meta.name);
    assert c0.peers[y] in c0.peers;
    PristineInv(c0);
    StepIs(c0, e);
    PeerChangeAt(c0, c0, y);
  }

  lemma LinkedDiffers(c0: Cluster, x: nat, y: nat)
    requires x < |c0.peers| && y < |c0.peers| && Linked(Placed(c0)[x], Placed(c0)[y])
    requires Placed(c0)[x].status.network != ""
    ensures x != y && HomeAddress(c0, c0.peers[y].meta) != "" && HomeName(c0, c0.peers[y].meta) != ""
  {
  }

  /** If `x` can list `y`, some order of service ends, with nothing left that could change, while `x` misses `y`: `y` is
      placed first, then everything else is served, and `y` gets its address last. */
  lemma MissedNeighbour(c0: Cluster, x: nat, y: nat) returns (es: seq<Event>, v: Watched)
    requires Pristine(c0) && x < |c0.peers| && y < |c0.peers| && Linked(Placed(c0)[x], Placed(c0)[y])
    requires Placed(c0)[x].status.network != "" && Computable(Placed(c0)[x], Placed(c0))
    ensures Reached(c0, es, v) && Idle(v) && Inv(c0, v.c) && Unlisted(v.c, x, y)
  {
    hide Serve, Started, Pristine, Computable, Linked, Idle;
    LinkedDiffers(c0, x, y);
    var w1 := StartPlaced(c0, x, y);
    var es2, w2 := ServeOthers(c0, w1, x, y);
    var es3, w3 := DropRequest(c0, w2, x, y);
    var w4 := ServeLast(c0, w3, x, y);
    var es5;
    es5, v := ServeRest(c0, w4, x);
    var first, last := [PeerEvent(c0.peers[y].meta.name)], [PeerEvent(w3.c.peers[y].meta.name)];
    ServedAppend(Started(c0), first, w1, es2, w2);
    ServedAppend(Started(c0), first + es2, w2, es3, w3);
    ServedAppend(Started(c0), first + es2 + es3, w3, last, w4);
    ServedAppend(Started(c0), first + es2 + es3 + last, w4, es5, v);
    es := first + es2 + es3 + last + es5;
  }

  /** The list of peer `x` after serving requests until none would change anything. */
  ghost predicate ListFinal(c0: Cluster, v: Watched, x: nat)
    requires x < |c0.peers| && FinalPeers(c0, x).Ok?
  {
    x < |v.c.peers| && v.c.peers[x].status.peers == FinalPeers(c0, x).value
  }

  lemma LinkPlace(c0: Cluster, x: nat) returns (y: nat)
    requires x < |c0.peers| && Linkable(c0, x)
    ensures y < |c0.peers| && Linked(Placed(c0)[x], Placed(c0)[y])
    ensures Placed(c0)[x].status.network != "" && Placed(c0)[x].status.address != ""
  {
    hide Linked;
    var q :| q in Placed(c0) && Linked(Placed(c0)[x], q);
    y :| y < |c0.peers| && Placed(c0)[y] == q;
  }

  lemma MissedList(c0: Cluster, x: nat) returns (es: seq<Event>, v: Watched)
    requires Pristine(c0) && x < |c0.peers| && FinalPeers(c0, x).Ok? && Linkable(c0, x)
    ensures Reached(c0, es, v) && Idle(v) && !ListFinal(c0, v, x)
  {
    hide Reached, Idle, Linked, Linkable;
    var y := LinkPlace(c0, x);
    es, v := MissedNeighbour(c0, x, y);
    UnlistedNotFinal(c0, v.c, x, y);
  }

  /** Watch events alone always bring a computable list to its final contents exactly when these are empty because the
      peer can be linked to nobody: a peer that gains an address does not make others list it. */
  lemma ListSettlesExact(c0: Cluster, x: nat)
    requires Pristine(c0) && x < |c0.peers| && FinalPeers(c0, x).Ok?
    ensures !Linkable(c0, x) <==> forall es, v :: Reached(c0, es, v) && Idle(v) ==> ListFinal(c0, v, x)
  {
    hide Reached, Linkable, FinalPeers, Pristine;
    if Linkable(c0, x) {
      var es, v := MissedList(c0, x);
    } else {
      forall es, v | Reached(c0, es, v) && Idle(v) ensures ListFinal(c0, v, x) {
        UnlinkedSettles(c0, es, v, x);
      }
    }
  }

  /** No peer whose list can be computed has anyone to list. */
  ghost predicate NoLink(c0: Cluster) {
    forall x: nat :: x < |c0.peers| && FinalPeers(c0, x).Ok? ==> !Linkable(c0, x)
  }

  lemma NoLinkRests(c0: Cluster, es: seq<Event>, v: Watched)
    requires Pristine(c0) && NoLink(c0) && Reached(c0, es, v) && Idle(v)
    ensures Quiescent(v.c)
  {
    WatchEventsSettle(c0, es, v);
    forall x: nat | x < |v.c.peers| && FinalPeers(c0, x).Ok?
      ensures v.c.peers[x].status.peers == FinalPeers(c0, x).value
    {
      UnlinkedSettles(c0, es, v, x);
    }
  }

  lemma MissedRest(c0: Cluster) returns (es: seq<Event>, v: Watched)
    requires Pristine(c0) && !NoLink(c0)
    ensures Reached(c0, es, v) && Idle(v) && !Quiescent(v.c)
  {
    var x: nat :| x < |c0.peers| && FinalPeers(c0, x).Ok? && Linkable(c0, x);
    es, v := MissedList(c0, x);
    WatchEventsSettle(c0, es, v);
  }

  /** Watch events alone always bring the cluster to rest exactly when no computable final list has an entry. */
  lemma WatchConvergesExact(c0: Cluster)
    requires Pristine(c0)
    ensures NoLink(c0) <==> forall es, v :: Reached(c0, es, v) && Idle(v) ==> Quiescent(v.c)
  {
    hide Reached, NoLink, Pristine;
    if NoLink(c0) {
      forall es, v | Reached(c0, es, v) && Idle(v) ensures Quiescent(v.c) {
        NoLinkRests(c0, es, v);
      }
    } else {
      var es, v := MissedRest(c0);
    }
  }

  lemma EmptyNotResting(c0: Cluster) returns (es: seq<Event>, v: Watched)
    requires Pristine(c0) && HomesSplit(c0) && !NoLink(c0)
    ensures Reached(c0, es, v) && v.pending == {} && !Quiescent(v.c)
  {
    hide Serve, Started, NoLink, Quiescent, HomesSplit;
    var fs, w := MissedRest(c0);
    StaysCalm(c0, fs, w);
    var rest;
    rest, v := Drain(c0, w);
    ServedAppend(Started(c0), fs, w, rest, v);
    es := fs + rest;
  }

  lemma StaysCalm(c0: Cluster, es: seq<Event>, w: Watched)
    requires Pristine(c0) && HomesSplit(c0) && Reached(c0, es, w)
    ensures Calm(c0, w.c)
  {
    StartedInv(c0);
    ServedInv(c0, Started(c0), es, w);
    SameSpecsNames(c0, w.c);
  }

  /** Every run that empties the queue ends at rest exactly when, if the queue can run empty at all, no computable final
      list has an entry. */
  lemma EmptyQueueRestsExact(c0: Cluster)
    requires Pristine(c0)
    ensures (HomesSplit(c0) ==> NoLink(c0)) <==>
        forall es, v :: Reached(c0, es, v) && v.pending == {} ==> Quiescent(v.c)
  {
    hide Reached, NoLink, Quiescent, Pristine, HomesSplit;
    if HomesSplit(c0) && !NoLink(c0) {
      var es, v := EmptyNotResting(c0);
    } else {
      forall es, v | Reached(c0, es, v) && v.pending == {} ensures Quiescent(v.c) {
        if HomesSplit(c0) {
          NoLinkRests(c0, es, v);
        } else {
          NotHomesSplitNeverEmpties(c0, es, v);
        }
      }
    }
  }
}
