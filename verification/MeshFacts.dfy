/** What the computed peer list is: exact contents, order, symmetry, and what it depends on. */
module MeshFacts {
  import opened Text
  import opened Api
  import opened PeerController

  // ---- Exact contents ----

  /** Positions of the peers that `p` can be connected to. */
  function Places(p: Peer, peers: seq<Peer>): seq<nat> {
    if peers == [] then []
    else
      var k := |peers| - 1;
      Places(p, peers[..k]) + if Linked(p, peers[k]) then [k] else []
  }

  ghost predicate Increasing(s: seq<nat>) {
    forall i, j :: 0 <= i < j < |s| ==> s[i] < s[j]
  }

  lemma {:induction false} PlacesLinked(p: Peer, peers: seq<Peer>)
    ensures var idx := Places(p, peers);
            && Increasing(idx)
            && (forall k :: 0 <= k < |idx| ==> idx[k] < |peers| && Linked(p, peers[idx[k]]))
  {
    if peers != [] {
      PlacesLinked(p, peers[..|peers| - 1]);
    }
  }

  lemma {:induction false} PlacesComplete(p: Peer, peers: seq<Peer>, i: nat)
    requires i < |peers| && Linked(p, peers[i])
    ensures i in Places(p, peers)
  {
    if i < |peers| - 1 {
      PlacesComplete(p, peers[..|peers| - 1], i);
    }
  }

  lemma PlacesExact(p: Peer, peers: seq<Peer>)
    ensures var idx := Places(p, peers);
            && Increasing(idx)
            && (forall k :: 0 <= k < |idx| ==> idx[k] < |peers| && Linked(p, peers[idx[k]]))
            && (forall i: nat :: i < |peers| && Linked(p, peers[i]) ==> i in idx)
  {
    PlacesLinked(p, peers);
    forall i: nat | i < |peers| && Linked(p, peers[i]) ensures i in Places(p, peers) {
      PlacesComplete(p, peers, i);
    }
  }

  lemma {:induction false} EntriesAtPlaces(p: Peer, peers: seq<Peer>, bindings: seq<RouteBinding>)
    ensures var idx := Places(p, peers);
            && |Entries(p, peers, bindings)| == |idx|
            && forall k :: 0 <= k < |idx| ==>
                idx[k] < |peers| && Entries(p, peers, bindings)[k] == Entry(peers[idx[k]], bindings)
  {
    if peers != [] {
      var init := peers[..|peers| - 1];
      EntriesAtPlaces(p, init, bindings);
      forall k | 0 <= k < |Places(p, init)| ensures init[Places(p, init)[k]] == peers[Places(p, init)[k]] {
      }
    }
  }

  /** Entry number `k` describes the peer at `Places[k]`; places increase and name exactly the linked peers. */
  lemma EntriesExact(p: Peer, peers: seq<Peer>, bindings: seq<RouteBinding>)
    ensures var idx := Places(p, peers);
            && |Entries(p, peers, bindings)| == |idx|
            && Increasing(idx)
            && (forall k :: 0 <= k < |idx| ==> idx[k] < |peers| && Linked(p, peers[idx[k]]))
            && (forall k :: 0 <= k < |idx| ==> Entries(p, peers, bindings)[k] == Entry(peers[idx[k]], bindings))
            && (forall i: nat :: i < |peers| && Linked(p, peers[i]) ==> i in idx)
  {
    PlacesExact(p, peers);
    EntriesAtPlaces(p, peers, bindings);
  }

  /** A linked peer has its entry in the list. */
  lemma EntryPresent(p: Peer, peers: seq<Peer>, bindings: seq<RouteBinding>, q: Peer)
    requires q in peers && Linked(p, q)
    ensures Entry(q, bindings) in Entries(p, peers, bindings)
  {
    var idx := Places(p, peers);
    EntriesExact(p, peers, bindings);
    var i: nat :| i < |peers| && peers[i] == q;
    var k :| 0 <= k < |idx| && idx[k] == i;
    assert Entries(p, peers, bindings)[k] == Entry(q, bindings);
  }

  /** Every entry of the list is that of some linked peer. */
  lemma EntrySource(p: Peer, peers: seq<Peer>, bindings: seq<RouteBinding>, e: PeerConfiguration) returns (q: Peer)
    requires e in Entries(p, peers, bindings)
    ensures q in peers && Linked(p, q) && e == Entry(q, bindings)
  {
    var idx := Places(p, peers);
    EntriesExact(p, peers, bindings);
    var k :| 0 <= k < |idx| && Entries(p, peers, bindings)[k] == e;
    q := peers[idx[k]];
  }

  /** Peers of one list with the same name are the same peer. */
  lemma SameName(peers: seq<Peer>, q: Peer, r: Peer)
    requires UniqueNames(PeerNames(peers)) && q in peers && r in peers && q.meta.name == r.meta.name
    ensures q == r
  {
    var i :| 0 <= i < |peers| && peers[i] == q;
    var j :| 0 <= j < |peers| && peers[j] == r;
    assert PeerNames(peers)[i] == PeerNames(peers)[j];
  }

  /** The list names precisely the linked peers. */
  lemma EntryNamesExact(p: Peer, peers: seq<Peer>, bindings: seq<RouteBinding>, name: string)
    ensures (exists e <- Entries(p, peers, bindings) :: e.name == name)
            <==> (exists q <- peers :: q.meta.name == name && Linked(p, q))
  {
    if e :| e in Entries(p, peers, bindings) && e.name == name {
      var q := EntrySource(p, peers, bindings, e);
    }
    if q :| q in peers && q.meta.name == name && Linked(p, q) {
      EntryPresent(p, peers, bindings, q);
    }
  }

  /** No name is listed twice. */
  lemma EntryNamesUnique(p: Peer, peers: seq<Peer>, bindings: seq<RouteBinding>)
    requires UniqueNames(PeerNames(peers))
    ensures var es := Entries(p, peers, bindings); forall i, j :: 0 <= i < j < |es| ==> es[i].name != es[j].name
  {
    var es, idx := Entries(p, peers, bindings), Places(p, peers);
    PlacesExact(p, peers);
    EntriesAtPlaces(p, peers, bindings);
    forall i, j | 0 <= i < j < |es| ensures es[i].name != es[j].name {
      assert PeerNames(peers)[idx[i]] != PeerNames(peers)[idx[j]];
    }
  }

  /** The entry of a given peer is in the list exactly when that peer is linked. */
  lemma EntryOf(p: Peer, peers: seq<Peer>, bindings: seq<RouteBinding>, q: Peer)
    requires q in peers && UniqueNames(PeerNames(peers))
    ensures Linked(p, q) ==> Entry(q, bindings) in Entries(p, peers, bindings)
    ensures forall e <- Entries(p, peers, bindings) :: e.name == q.meta.name ==> e == Entry(q, bindings) && Linked(p, q)
  {
    if Linked(p, q) {
      EntryPresent(p, peers, bindings, q);
    }
    forall e | e in Entries(p, peers, bindings) && e.name == q.meta.name
      ensures e == Entry(q, bindings) && Linked(p, q)
    {
      var r := EntrySource(p, peers, bindings, e);
      SameName(peers, q, r);
    }
  }

  lemma {:induction false} BindingsForMembers(m: ObjectMeta, bindings: seq<RouteBinding>, rr: RouteBinding)
    ensures rr in BindingsFor(m, bindings) <==> rr in bindings && Matches(m, rr.selector)
  {
    if bindings != [] {
      var k := |bindings| - 1;
      BindingsForMembers(m, bindings[..k], rr);
      assert bindings == bindings[..k] + [bindings[k]];
    }
  }

  lemma {:induction false} RoutesOfMembers(bindings: seq<RouteBinding>, route: string)
    ensures route in RoutesOf(bindings) <==> exists rr <- bindings :: route in rr.routes
  {
    if bindings != [] {
      var k := |bindings| - 1;
      RoutesOfMembers(bindings[..k], route);
      assert bindings == bindings[..k] + [bindings[k]];
    }
  }

  /** Beyond the peer's own host address, an entry allows exactly the routes of the bindings selecting the peer. */
  lemma AllowedExact(q: Peer, bindings: seq<RouteBinding>, cidr: string)
    ensures cidr in Entry(q, bindings).allowedIPs <==>
              || cidr == SplitNetMask(q.status.address).0 + "/32"
              || exists rr <- bindings :: Matches(q.meta, rr.selector) && cidr in rr.routes
  {
    var mine := BindingsFor(q.meta, bindings);
    RoutesOfMembers(mine, cidr);
    if rr :| rr in mine && cidr in rr.routes {
      BindingsForMembers(q.meta, bindings, rr);
    }
    if rr :| rr in bindings && Matches(q.meta, rr.selector) && cidr in rr.routes {
      BindingsForMembers(q.meta, bindings, rr);
    }
  }

  // ---- Order of the peer list ----

  lemma {:induction false} EntriesAppend(p: Peer, xs: seq<Peer>, ys: seq<Peer>, bindings: seq<RouteBinding>)
    ensures Entries(p, xs + ys, bindings) == Entries(p, xs, bindings) + Entries(p, ys, bindings)
  {
    if ys == [] {
      assert xs + ys == xs;
    } else {
      var k := |ys| - 1;
      assert (xs + ys)[..|xs| + k] == xs + ys[..k];
      EntriesAppend(p, xs, ys[..k], bindings);
    }
  }

  lemma DropOne(xs: seq<Peer>, q: Peer, l: seq<Peer>, r: seq<Peer>)
    requires multiset(xs + [q]) == multiset(l + [q] + r)
    ensures multiset(xs) == multiset(l + r)
  {
    var a, b := multiset(xs), multiset(l + r);
    assert a + multiset{q} == b + multiset{q};
    forall x: Peer ensures a[x] == b[x] {
      assert (a + multiset{q})[x] == (b + multiset{q})[x];
    }
  }

  lemma {:induction false} EntriesShuffle(p: Peer, peers: seq<Peer>, shuffled: seq<Peer>, bindings: seq<RouteBinding>)
    requires multiset(peers) == multiset(shuffled)
    ensures multiset(Entries(p, peers, bindings)) == multiset(Entries(p, shuffled, bindings))
    decreases |peers|
  {
    assert |peers| == |multiset(peers)| == |multiset(shuffled)| == |shuffled|;
    if peers != [] {
      var k := |peers| - 1;
      var q := peers[k];
      assert peers == peers[..k] + [q];
      assert q in multiset(shuffled);
      var j :| 0 <= j < |shuffled| && shuffled[j] == q;
      var l, r := shuffled[..j], shuffled[j + 1..];
      assert shuffled == l + [q] + r;
      DropOne(peers[..k], q, l, r);
      EntriesShuffle(p, peers[..k], l + r, bindings);
      EntriesAppend(p, peers[..k], [q], bindings);
      EntriesAppend(p, l, r, bindings);
      EntriesAppend(p, l + [q], r, bindings);
      EntriesAppend(p, l, [q], bindings);
    }
  }

  /** Listing the peers in another order only reorders the result, and keeps a failure a failure. */
  lemma MeshOrderFree(p: Peer, peers: seq<Peer>, shuffled: seq<Peer>, bindings: seq<RouteBinding>)
    requires multiset(peers) == multiset(shuffled)
    ensures Mesh(p, peers, bindings).Ok? <==> Mesh(p, shuffled, bindings).Ok?
    ensures Mesh(p, peers, bindings).Ok? ==>
              multiset(Mesh(p, peers, bindings).value) == multiset(Mesh(p, shuffled, bindings).value)
  {
    EntriesShuffle(p, peers, shuffled, bindings);
    assert forall q :: q in peers <==> q in multiset(peers);
    assert forall q :: q in shuffled <==> q in multiset(shuffled);
  }

  // ---- Symmetry ----

  /** Two addressed peers of one network list each other or neither does; when they do, the endpoints given are
      those of the listening sides, and there is at least one to dial. */
  lemma MeshSymmetric(p: Peer, q: Peer, peers: seq<Peer>, bindings: seq<RouteBinding>)
    requires p in peers && q in peers && UniqueNames(PeerNames(peers))
    requires p.status.address != "" && q.status.address != ""
    requires Mesh(p, peers, bindings).Ok? && Mesh(q, peers, bindings).Ok?
    ensures var atP, atQ := Mesh(p, peers, bindings).value, Mesh(q, peers, bindings).value;
            && ((exists e <- atP :: e.name == q.meta.name) <==> (exists e <- atQ :: e.name == p.meta.name))
            && (forall e <- atP, f <- atQ :: e.name == q.meta.name && f.name == p.meta.name ==>
                  && e.endpoint == (if Listens(q) then q.spec.endpoint else "")
                  && f.endpoint == (if Listens(p) then p.spec.endpoint else "")
                  && (e.endpoint != "" || f.endpoint != ""))
  {
    EntryOf(p, peers, bindings, q);
    EntryOf(q, peers, bindings, p);
    assert Linked(p, q) <==> Linked(q, p);
    if Linked(p, q) {
      assert Entry(q, bindings) in Entries(p, peers, bindings);
      assert Entry(p, bindings) in Entries(q, peers, bindings);
    }
  }

  // ---- Dependence ----

  /** Two versions of a peer that a mesh computation cannot tell apart. */
  ghost predicate SameView(q: Peer, r: Peer) {
    && q.meta == r.meta
    && q.spec == r.spec
    && q.status.network == r.status.network
    && q.status.address == r.status.address
  }

  ghost predicate SameViews(peers: seq<Peer>, others: seq<Peer>) {
    |peers| == |others| && forall i :: 0 <= i < |peers| ==> SameView(peers[i], others[i])
  }

  lemma {:induction false} EntriesCongruent(p: Peer, p': Peer, peers: seq<Peer>, others: seq<Peer>,
                                            bindings: seq<RouteBinding>)
    requires SameView(p, p') && SameViews(peers, others)
    ensures Entries(p, peers, bindings) == Entries(p', others, bindings)
  {
    if peers != [] {
      var k := |peers| - 1;
      assert SameView(peers[k], others[k]);
      EntriesCongruent(p, p', peers[..k], others[..k], bindings);
    }
  }

  /** The mesh is computed from metadata, specs, networks and addresses; previously computed lists are not read. */
  lemma MeshCongruent(p: Peer, p': Peer, peers: seq<Peer>, others: seq<Peer>, bindings: seq<RouteBinding>)
    requires SameView(p, p') && SameViews(peers, others)
    ensures Mesh(p, peers, bindings) == Mesh(p', others, bindings)
  {
    EntriesCongruent(p, p', peers, others, bindings);
    if Computable(p, peers) {
      ComputableCongruent(p, p', peers, others);
    }
    if Computable(p', others) {
      ComputableCongruent(p', p, others, peers);
    }
  }

  lemma ComputableCongruent(p: Peer, p': Peer, peers: seq<Peer>, others: seq<Peer>)
    requires SameView(p, p') && SameViews(peers, others) && Computable(p, peers)
    ensures Computable(p', others)
  {
    forall r | r in others && Neighbour(p', r) ensures Splits(r.spec.endpoint) {
      var i :| 0 <= i < |others| && others[i] == r;
      assert SameView(peers[i], r) && peers[i] in peers && Neighbour(p, peers[i]);
    }
  }
}
