/** Concrete inputs for which the code does not do what its comments or names promise. */
module Witnesses {
  import opened Common
  import opened Text
  import opened Api
  import opened ApiServer
  import opened NetworkController
  import opened PeerController
  import opened NetworkChoice
  import opened Runs
  import opened Convergence
  import opened Guardlet
  import opened Mkconf
  import Divergence
  import Triggers
  import opened Watch
  import WatchLists

  // ---- Building blocks ----

  function Rule(address: string): AllocationRule {
    AllocationRule(Some(address), None)
  }

  /** A network whose rules all match every peer. */
  function Net(name: string, rules: seq<AllocationRule>): Network {
    Network(name, 0, NetworkSpec("", rules), NetworkStatus([]))
  }

  function NewPeer(name: string, endpoint: string, status: PeerStatus): Peer {
    Peer(ObjectMeta(name, map[]), 0, PeerSpec("key", endpoint), status)
  }

  function Listening(): string {
    "h" + ":" + "1"
  }

  lemma ListeningSplits()
    ensures Splits(Listening()) && Host(Listening()) == "h" && !Bracketed(Listening())
    ensures !Splits("")
  {
    PlainSplits("h", "1");
  }

  lemma ThreeNames()
    ensures UniqueNames(["a", "b", "c"])
  {
  }

  lemma OneNetworkChosen(m: ObjectMeta, name: string, address: string)
    ensures ChooseNetwork(m, [Net(name, [Rule(address)])]) == Ok(Some(Net(name, [Rule(address)])))
    ensures AssignedAddress(m, [Rule(address)]) == Some(address)
  {
    var n := Net(name, [Rule(address)]);
    assert RuleMatches(m, n.spec.allocations[0]);
    assert [n][..0] == [];
    assert Selecting(m, [n]) == [n];
  }

  // ---- A list that depends on timing ----

  /** Two listening peers, and one whose endpoint is left out as the documentation allows. */
  function JammedCluster(): Cluster {
    Cluster([NewPeer("a", Listening(), EMPTY_STATUS), NewPeer("b", Listening(), EMPTY_STATUS),
      NewPeer("c", "", EMPTY_STATUS)],
            [Net("n", [Rule("10.0.0.1")])], [], 0)
  }

  lemma JammedHomes(m: ObjectMeta)
    ensures HomeName(JammedCluster(), m) == "n" && HomeAddress(JammedCluster(), m) == "10.0.0.1"
  {
    OneNetworkChosen(m, "n", "10.0.0.1");
    var networks := JammedCluster().networks;
    assert NetworkNames(networks) == ["n"];
    assert FindNetwork(networks, "n") == Some(networks[0]);
  }

  /** Peer "a" can rest with or without a list. */
  lemma JammedExists()
    ensures Pristine(JammedCluster()) && Divergence.Jammed(JammedCluster(), 0)
  {
    var c := JammedCluster();
    ThreeNames();
    assert PeerNames(c.peers) == ["a", "b", "c"];
    assert NetworkNames(c.networks) == ["n"];
    ListeningSplits();
    var placed := Placed(c);
    forall i | 0 <= i < 3 ensures placed[i].status == PeerStatus("10.0.0.1", "n", []) {
      JammedHomes(c.peers[i].meta);
    }
    assert Neighbour(placed[0], placed[2]) && placed[2] in placed;
    assert Linked(placed[0], placed[1]) && placed[1] in placed;
  }

  // ---- A binding change that nobody is told about ----

  function Members(): seq<Peer> {
    [NewPeer("a", Listening(), PeerStatus("10.0.0.1", "n", [])),
      NewPeer("b", Listening(), PeerStatus("10.0.0.2", "n", []))]
  }

  /** Selects a peer of network "n" but names another one. */
  function Stray(): RouteBinding {
    RouteBinding("r", ["10.1.0.0/16"], PeerSelector(["b"], map[]), "other")
  }

  /** Creating the binding changes the list of peer "a", and its handler requests nobody. */
  lemma StrayBindingMissed()
    ensures Mesh(Members()[0], Members(), [Stray()]) != Mesh(Members()[0], Members(), [])
    ensures Members()[0].meta.name !in PeersIn(Stray().network, Members())
  {
    var peers := Members();
    ListeningSplits();
    assert Linked(peers[0], peers[1]) && peers[1] in peers && Matches(peers[1].meta, Stray().selector);
    Triggers.BindingChanges(peers[0], peers, [], Stray(), []);
    assert [] + [Stray()] + [] == [Stray()];
    Triggers.PeersInExact(Stray().network, peers, "a");
  }

  // ---- A new key that nobody is told about ----

  /** When "b" gets a new key, the list of "a" changes, but only "b" is reconciled. */
  lemma NewKeyMissed()
    ensures var p := Members()[1];
            var p' := p.(spec := p.spec.(publicKey := "new"));
            Mesh(Members()[0], [Members()[0], p], []) != Mesh(Members()[0], [Members()[0], p'], [])
  {
    var q, p := Members()[0], Members()[1];
    var p' := p.(spec := p.spec.(publicKey := "new"));
    ListeningSplits();
    Triggers.ReplacementNoticed(q, [q], p, p', [], []);
    assert [q] + [p] + [] == [q, p] && [q] + [p'] + [] == [q, p'];
    assert Triggers.ListedAs(q, p, []) == Ok([Entry(p, [])]) && Triggers.ListedAs(q, p', []) == Ok([Entry(p', [])]);
    assert "key" != "new";
  }

  // ---- Network changes that waiting peers are not told about ----

  function Waiting(networks: seq<Network>): Cluster {
    Cluster([NewPeer("a", Listening(), EMPTY_STATUS)], networks, [], 0)
  }

  lemma WaitingMissed(network: string, before: seq<Network>, after: seq<Network>)
    requires network != "" && forall n <- before + after :: n.name != ""
    requires ChosenName(ObjectMeta("a", map[]), before) != ChosenName(ObjectMeta("a", map[]), after)
    ensures var p := Waiting(before).peers[0];
            NextStatus(p, Waiting(before)) != NextStatus(p, Waiting(after)) &&
              p.meta.name !in PeersIn(network, Waiting(before).peers)
  {
    Triggers.WaitingPeerMissed(network, Waiting(before), Waiting(after), Waiting(before).peers[0]);
  }

  /** Creating a network that would take the peer; giving a network its first rule; deleting one of two networks that
      both want the peer: each time the peer reconciles differently and is not requested. */
  lemma WaitingPeersMissed()
    ensures forall change <- [([], [Net("n", [Rule("x")])]),
                              ([Net("n", [])], [Net("n", [Rule("x")])]),
                              ([Net("m", [Rule("x")]), Net("n", [Rule("x")])], [Net("m", [Rule("x")])])] ::
              var p := Waiting(change.0).peers[0];
              && NextStatus(p, Waiting(change.0)) != NextStatus(p, Waiting(change.1))
              && p.meta.name !in PeersIn("n", Waiting(change.0).peers)
  {
    var m := ObjectMeta("a", map[]);
    OneNetworkChosen(m, "n", "x");
    OneNetworkChosen(m, "m", "x");
    WaitingMissed("n", [], [Net("n", [Rule("x")])]);
    NoRuleNoChoice(m);
    WaitingMissed("n", [Net("n", [])], [Net("n", [Rule("x")])]);
    TwoNetworksContest(m);
    WaitingMissed("n", [Net("m", [Rule("x")]), Net("n", [Rule("x")])], [Net("m", [Rule("x")])]);
  }

  lemma NoRuleNoChoice(m: ObjectMeta)
    ensures ChosenName(m, [Net("n", [])]) == None
  {
    ChoiceExact(m, [Net("n", [])]);
  }

  lemma TwoNetworksContest(m: ObjectMeta)
    ensures ChosenName(m, [Net("m", [Rule("x")]), Net("n", [Rule("x")])]) == None
  {
    var networks := [Net("m", [Rule("x")]), Net("n", [Rule("x")])];
    assert RuleMatches(m, networks[0].spec.allocations[0]) && RuleMatches(m, networks[1].spec.allocations[0]);
    assert Selects(networks[0], m) && Selects(networks[1], m);
    assert Contested(m, networks);
    ChoiceExact(m, networks);
  }

  // ---- Printers ----

  function Ipv6(): string {
    "[" + "::1" + "]:" + "8"
  }

  lemma Ipv6Is()
    ensures Ipv6() == "[::1]:8" && OneLine(Ipv6())
  {
  }

  lemma Ipv6Splits()
    ensures SplitHostPort(Ipv6()) == Ok(HostPort("::1", "8")) && Bracketed(Ipv6())
  {
    BracketedSplits("::1", "8");
  }

  /** A peer with one neighbour, at the given endpoint. */
  function Beside(endpoint: string): Peer {
    NewPeer("a", Listening(), PeerStatus("10.0.0.1", "n", [PeerConfiguration("b", "key", endpoint, ["10.0.0.2/32"])]))
  }

  lemma OwnPort()
    ensures SplitHostPort(Listening()) == Ok(HostPort("h", "1"))
  {
    PlainSplits("h", "1");
  }

  lemma BesidePrints(endpoint: string)
    requires Splits(endpoint) && OneLine(endpoint)
    ensures CfgArgs("wg0", "file", Beside(endpoint)).Ok? && PeerOneLined("private", Beside(endpoint))
  {
    var c := PeerConfiguration("b", "key", endpoint, ["10.0.0.2/32"]);
    OwnPort();
    assert Printable(c);
    assert Free(c.allowedIPs, '\n');
  }

  lemma AnyBracketsDisagree(endpoint: string)
    requires Splits(endpoint) && OneLine(endpoint) && Bracketed(endpoint)
    ensures CfgArgs("wg0", "file", Beside(endpoint)).Ok? && ConfText("private", Beside(endpoint)).Ok?
    ensures var args := ReadArgs(CfgArgs("wg0", "file", Beside(endpoint)).value);
            var conf := ReadConf(ConfText("private", Beside(endpoint)).value);
            args.Some? && conf.Some? && args.value.peers != conf.value.peers
  {
    var p := Beside(endpoint);
    BesidePrints(endpoint);
    OneLinedAgree("wg0", "file", "private", p);
    assert p.status.peers[0] in p.status.peers && Bracketed(p.status.peers[0].endpoint);
  }

  /** The brackets of an IPv6 endpoint get lost: arguments and file name different endpoints. */
  lemma Ipv6PrintersDisagree()
    ensures Splits("[::1]:8") && Bracketed("[::1]:8") && Rejoined("[::1]:8") == "::1" + ":" + "8"
    ensures CfgArgs("wg0", "file", Beside("[::1]:8")).Ok? && ConfText("private", Beside("[::1]:8")).Ok?
    ensures var args := ReadArgs(CfgArgs("wg0", "file", Beside("[::1]:8")).value);
            var conf := ReadConf(ConfText("private", Beside("[::1]:8")).value);
            args.Some? && conf.Some? && args.value.peers != conf.value.peers
  {
    Ipv6Is();
    Ipv6Splits();
    AnyBracketsDisagree(Ipv6());
  }

  function AtAddress(address: string): Peer {
    NewPeer("a", Listening(), PeerStatus(address, "n", []))
  }

  /** An address with a mask gets a second one in the file. */
  lemma MaskedPrintersDisagree()
    ensures CfgArgs("wg0", "file", AtAddress("10.0.0.1/24")).Ok?
    ensures !PrintersAgree("wg0", "file", "private", AtAddress("10.0.0.1/24"))
  {
    OwnPort();
    assert "10.0.0.1/24"[8] == '/';
    PrintersAgreeExact("wg0", "file", "private", AtAddress("10.0.0.1/24"));
  }

  /** A mask left empty is part of the host for the peer controller, not for the guardlet. */
  lemma EmptyMaskReadDifferently()
    ensures BeforeSlash("10.0.0.1/") == "10.0.0.1" && SplitNetMask("10.0.0.1/").0 == "10.0.0.1/"
  {
    assert "10.0.0.1/"[8] == '/';
    assert "10.0.0.1/"[..8] == "10.0.0.1";
    assert Index("10.0.0.1/", '/') == 8;
  }

  // ---- Allocations ----

  /** The entry of a vanished peer is dropped from the list that is built, and kept in the one that is stored. */
  lemma VanishedPeerKept()
    ensures var n := Net("n", [Rule("x")]).(status := NetworkStatus([IPAssignment("gone", "x")]));
            && NextAllocations(n, []) == [IPAssignment("gone", "x")]
            && Live(NextAllocations(n, []), NetworkController.Members(n.name, [])) == []
  {
    var a := IPAssignment("gone", "x");
    assert [a][..0] == [];
  }

  /** A matching rule without an address grants the empty one, which leaves the peer unaddressed. */
  lemma EmptyGrant(m: ObjectMeta)
    ensures AssignedAddress(m, [AllocationRule(None, None)]) == Some("")
  {
    assert RuleMatches(m, AllocationRule(None, None));
  }

  // ---- A queue that runs empty too early ----

  const ADDRESS := "10.0.0.1"

  /** Two listening peers and a network for both. */
  function Pair(): Cluster {
    Cluster([NewPeer("a", Listening(), EMPTY_STATUS), NewPeer("b", Listening(), EMPTY_STATUS)],
      [Net("n", [Rule(ADDRESS)])], [], 0)
  }

  lemma PairHomes(m: ObjectMeta)
    ensures HomeName(Pair(), m) == "n" && HomeAddress(Pair(), m) == ADDRESS
  {
    OneNetworkChosen(m, "n", ADDRESS);
    var networks := Pair().networks;
    assert NetworkNames(networks) == ["n"];
    assert FindNetwork(networks, "n") == Some(networks[0]);
  }

  lemma PairPristine()
    ensures Pristine(Pair())
  {
    assert PeerNames(Pair().peers) == ["a", "b"] && NetworkNames(Pair().networks) == ["n"];
  }

  /** Both end up at the same address. */
  lemma PairPlaced(x: nat)
    requires x < 2
    ensures Placed(Pair())[x].status == PeerStatus(ADDRESS, "n", [])
    ensures Placed(Pair())[x].meta == Pair().peers[x].meta && Placed(Pair())[x].spec == PeerSpec("key", Listening())
  {
    PairHomes(Pair().peers[x].meta);
  }

  lemma PairSplits()
    ensures HomesSplit(Pair())
  {
    ListeningSplits();
  }

  lemma PairLinked()
    ensures !WatchLists.NoLink(Pair())
  {
    hide HomeName, HomeAddress, SplitHostPort;
    var placed := Placed(Pair());
    ListeningSplits();
    PairPlaced(0);
    PairPlaced(1);
    assert placed[1] in placed && Linked(placed[0], placed[1]);
    assert WatchLists.Linkable(Pair(), 0);
    assert Computable(placed[0], placed);
  }

  /** For these two peers the queue can run empty while one of them still does not list the other. */
  lemma QueueDrainsTooEarly() returns (es: seq<Event>, v: Watched)
    ensures Pristine(Pair()) && Reached(Pair(), es, v) && v.pending == {} && !Quiescent(v.c)
  {
    hide Reached, Pristine, HomesSplit, Quiescent;
    PairPristine();
    PairSplits();
    PairLinked();
    WatchLists.EmptyQueueRestsExact(Pair());
    es, v :| Reached(Pair(), es, v) && v.pending == {} && !Quiescent(v.c);
  }
}
