/** Concrete inputs and what the code makes of them. */
module Samples {
  import opened Common
  import opened Text
  import opened Api
  import opened ApiServer
  import opened NetworkController
  import opened PeerController
  import opened Guardlet
  import opened Mkconf
  import opened NetworkChoice
  import MeshFacts
  import ReconcileFacts
  import Triggers

  function NewPeer(name: string, key: string, endpoint: string, address: string): Peer {
    Peer(ObjectMeta(name, map[]), 1, PeerSpec(key, endpoint), PeerStatus(address, "n", []))
  }

  // ---- Matching ----

  const SERVERS := PeerSelector([], map["role" := "server"])

  /** A label with another value does not match, whether a rule or a binding asks for it. */
  lemma OtherValueRefused(network: string, routes: seq<string>)
    ensures var client := ObjectMeta("a", map["role" := "client", "zone" := "x"]);
            && !RuleMatches(client, AllocationRule(Some("10.0.0.1"), Some(SERVERS)))
            && AssignedAddress(client, [AllocationRule(Some("10.0.0.1"), Some(SERVERS))]) == None
            && BindingsFor(client, [RouteBinding("r", routes, SERVERS, network)]) == []
  {
    var client := ObjectMeta("a", map["role" := "client", "zone" := "x"]);
    assert "client"[0] != "server"[0];
    assert "role" in SERVERS.matchLabels && !Matches(client, SERVERS);
    var rr := RouteBinding("r", routes, SERVERS, network);
    assert [rr][..0] == [];
  }

  /** Further labels do no harm; an empty selector matches nobody. */
  lemma SameValueAccepted(network: string, routes: seq<string>)
    ensures var server := ObjectMeta("a", map["role" := "server", "zone" := "x"]);
            && AssignedAddress(server, [AllocationRule(Some("10.0.0.1"), Some(SERVERS))]) == Some("10.0.0.1")
            && BindingsFor(server, [RouteBinding("r", routes, SERVERS, network)]) ==
               [RouteBinding("r", routes, SERVERS, network)]
            && !Matches(server, PeerSelector([], map[]))
  {
    var server := ObjectMeta("a", map["role" := "server", "zone" := "x"]);
    assert SERVERS.matchLabels != map[] by {
      assert "role" in SERVERS.matchLabels;
    }
    assert Matches(server, SERVERS);
    assert RuleMatches(server, AllocationRule(Some("10.0.0.1"), Some(SERVERS)));
    var rr := RouteBinding("r", routes, SERVERS, network);
    assert [rr][..0] == [];
  }

  // ---- Allocating ----

  function OneAndRest(): seq<AllocationRule> {
    [AllocationRule(Some("10.0.0.1"), Some(PeerSelector(["a"], map[]))), AllocationRule(Some("10.0.0.2"), None)]
  }

  /** The first matching rule counts, also when a later one matches too. */
  lemma FirstRuleWins()
    ensures AssignedAddress(ObjectMeta("a", map[]), OneAndRest()) == Some("10.0.0.1")
    ensures AssignedAddress(ObjectMeta("b", map[]), OneAndRest()) == Some("10.0.0.2")
  {
    var rules := OneAndRest();
    assert RuleMatches(ObjectMeta("a", map[]), rules[0]) && !RuleMatches(ObjectMeta("b", map[]), rules[0]);
    assert RuleMatches(ObjectMeta("b", map[]), rules[1]);
  }

  // ---- A refused write ----

  function Unplaced(version: nat): Peer {
    Peer(ObjectMeta("a", map[]), version, PeerSpec("key", ""), EMPTY_STATUS)
  }

  function OneNetwork(version: nat): Cluster {
    var n := Network("n", 1, NetworkSpec("", [AllocationRule(None, None)]), NetworkStatus([]));
    Cluster([Unplaced(version)], [n], [], 2)
  }

  /** The cache holds version 1 of a peer that could be placed, the server version 2: nothing is written, and the
      reconcile reports an error. */
  lemma ConflictReported()
    ensures PeerStepFrom(OneNetwork(2), OneNetwork(1).peers, OneNetwork(1), "a") == OneNetwork(2)
    ensures PeerFailsFrom(OneNetwork(2), OneNetwork(1).peers, OneNetwork(1), "a")
  {
    hide NextStatus;
    var server, cache := OneNetwork(2), OneNetwork(1);
    assert PeerNames(cache.peers) == ["a"] && PeerNames(server.peers) == ["a"];
    UnplacedNext();
  }

  lemma UnplacedNext()
    ensures NextStatus(Unplaced(1), OneNetwork(1)) == Ok(EMPTY_STATUS.(network := "n"))
  {
    hide Selecting, Selects;
    var cache := OneNetwork(1);
    assert Only(Unplaced(1).meta, cache.networks, 0) by {
      ReconcileFacts.SelectsExact(cache.networks[0], Unplaced(1).meta);
      assert cache.networks[0].spec.allocations[0] in cache.networks[0].spec.allocations;
    }
    ReconcileFacts.PlacingExact(Unplaced(1), cache);
  }

  // ---- Listing ----

  function ServerEndpoint(): string {
    "wg" + ":" + "12345"
  }

  function ClientEndpoint(): string {
    "" + ":" + "12345"
  }

  function Server(): Peer {
    NewPeer("server", "KS", ServerEndpoint(), "10.0.0.1")
  }

  function Laptop(): Peer {
    NewPeer("laptop", "KL", ClientEndpoint(), "10.0.0.2")
  }

  function Route(): RouteBinding {
    RouteBinding("r", ["10.0.0.0/24", "10.9.0.0/16"], PeerSelector(["server"], map[]), "n")
  }

  function ServerEntry(): PeerConfiguration {
    PeerConfiguration("server", "KS", "wg:12345", ["10.0.0.1/32", "10.0.0.0/24", "10.9.0.0/16"])
  }

  function LaptopEntry(): PeerConfiguration {
    PeerConfiguration("laptop", "KL", "", ["10.0.0.2/32"])
  }

  lemma Endpoints()
    ensures SplitHostPort(ServerEndpoint()) == Ok(HostPort("wg", "12345"))
    ensures SplitHostPort(ClientEndpoint()) == Ok(HostPort("", "12345"))
  {
    PlainSplits("wg", "12345");
    PlainSplits("", "12345");
  }

  lemma Addresses()
    ensures SplitNetMask("10.0.0.1").0 + "/32" == "10.0.0.1/32"
    ensures SplitNetMask("10.0.0.2").0 + "/32" == "10.0.0.2/32"
  {
    hide SplitNetMask;
    SplitNetMaskExact("10.0.0.1");
    SplitNetMaskExact("10.0.0.2");
  }

  lemma Names()
    ensures "laptop" != "server" && ServerEndpoint() == "wg:12345"
  {
    assert "laptop"[0] != "server"[0];
  }

  lemma Routes()
    ensures RoutesOf(BindingsFor(Server().meta, [Route()])) == ["10.0.0.0/24", "10.9.0.0/16"]
    ensures RoutesOf(BindingsFor(Laptop().meta, [Route()])) == []
  {
    hide Matches;
    Selected();
    OneBinding(Server().meta, Route());
    OneBinding(Laptop().meta, Route());
  }

  lemma Selected()
    ensures Matches(Server().meta, Route().selector) && !Matches(Laptop().meta, Route().selector)
  {
    Names();
  }

  lemma OneBinding(m: ObjectMeta, rr: RouteBinding)
    ensures RoutesOf(BindingsFor(m, [rr])) == if Matches(m, rr.selector) then rr.routes else []
  {
    hide Matches;
    ReconcileFacts.RoutesInOrder(m, [], rr, []);
    assert [] + [rr] + [] == [rr];
  }

  lemma EntriesOfBoth()
    ensures Entry(Server(), [Route()]) == ServerEntry()
    ensures Entry(Laptop(), [Route()]) == LaptopEntry()
  {
    hide SplitNetMask, SplitHostPort, RoutesOf, BindingsFor;
    Endpoints();
    Addresses();
    Routes();
    Names();
  }

  lemma Links()
    ensures Linked(Laptop(), Server()) && Linked(Server(), Laptop())
    ensures !Linked(Laptop(), Laptop()) && !Linked(Server(), Server())
    ensures Computable(Laptop(), [Laptop(), Server()]) && Computable(Server(), [Laptop(), Server()])
  {
    hide SplitHostPort;
    Endpoints();
    Names();
  }

  lemma EntriesOfTwo(p: Peer, a: Peer, b: Peer, bindings: seq<RouteBinding>)
    ensures Entries(p, [a, b], bindings) ==
            (if Linked(p, a) then [Entry(a, bindings)] else []) + (if Linked(p, b) then [Entry(b, bindings)] else [])
  {
    hide Entry, Linked;
    MeshFacts.EntriesAppend(p, [a], [b], bindings);
    Triggers.EntriesOne(p, a, bindings);
    Triggers.EntriesOne(p, b, bindings);
    assert [a] + [b] == [a, b];
  }

  /** What each of a server and a roaming client is told of the other. */
  lemma ListsComputed()
    ensures Mesh(Laptop(), [Laptop(), Server()], [Route()]) == Ok([ServerEntry()])
    ensures Mesh(Server(), [Laptop(), Server()], [Route()]) == Ok([LaptopEntry()])
  {
    hide Entry, Linked, Computable;
    EntriesOfBoth();
    Links();
    EntriesOfTwo(Laptop(), Laptop(), Server(), [Route()]);
    EntriesOfTwo(Server(), Laptop(), Server(), [Route()]);
    assert Entries(Laptop(), [Laptop(), Server()], [Route()]) == [ServerEntry()];
    assert Entries(Server(), [Laptop(), Server()], [Route()]) == [LaptopEntry()];
  }

  // ---- Printing ----

  /** A peer whose list holds a server and a roaming client. */
  function Printed(): Peer {
    Server().(status := PeerStatus("10.0.0.1", "n", [ServerEntry(), LaptopEntry()]))
  }

  lemma ThreeJoined(a: string, b: string, c: string)
    ensures Join([a, b, c], ',') == a + [','] + (b + [','] + c)
  {
    assert [a, b, c][1..] == [b, c] && [b, c][1..] == [c];
    assert Join([b, c], ',') == b + [','] + Join([c], ',');
  }

  lemma ListsJoined()
    ensures Join(ServerEntry().allowedIPs, ',') == "10.0.0.1/32,10.0.0.0/24,10.9.0.0/16"
    ensures Join(LaptopEntry().allowedIPs, ',') == "10.0.0.2/32"
  {
    ThreeJoined("10.0.0.1/32", "10.0.0.0/24", "10.9.0.0/16");
  }

  lemma EntryArguments()
    ensures PeerArgs(ServerEntry()) ==
            ["peer", "KS", "endpoint", "wg:12345", "allowed-ips", "10.0.0.1/32,10.0.0.0/24,10.9.0.0/16"]
    ensures PeerArgs(LaptopEntry()) == ["peer", "KL", "allowed-ips", "10.0.0.2/32"]
    ensures Printable(ServerEntry()) && Printable(LaptopEntry())
  {
    hide SplitHostPort, Join;
    Endpoints();
    Names();
    ListsJoined();
  }

  /** The arguments for a server's and a roaming client's entry: no endpoint where there is none to dial. */
  lemma ArgumentsPrinted()
    ensures CfgArgs("wg0", "/etc/key", Printed()) ==
            Ok(["set", "wg0", "listen-port", "12345", "private-key", "/etc/key"]
               + (["peer", "KS", "endpoint", "wg:12345", "allowed-ips", "10.0.0.1/32,10.0.0.0/24,10.9.0.0/16"]
                  + ["peer", "KL", "allowed-ips", "10.0.0.2/32"]))
  {
    hide SplitHostPort, PeerArgs, Printable;
    Endpoints();
    EntryArguments();
    var peers := [ServerEntry(), LaptopEntry()];
    assert peers[..1] == [ServerEntry()] && peers[..1][..0] == [];
    assert PeersArgs(peers[..1]) == PeerArgs(ServerEntry());
    assert PeersArgs(peers) == PeerArgs(ServerEntry()) + PeerArgs(LaptopEntry());
    assert forall c <- peers :: c == ServerEntry() || c == LaptopEntry();
    assert CfgArgs("wg0", "/etc/key", Printed()) ==
           Ok(["set", "wg0", "listen-port", "12345", "private-key", "/etc/key"] + PeersArgs(peers));
  }

  function Head(): seq<string> {
    ["[Interface]", "Address = 10.0.0.1/32", "ListenPort = 12345", "PrivateKey = PRIV", ""]
  }

  function ServerSection(): seq<string> {
    ["", "[Peer]", "PublicKey = KS", "AllowedIPs = 10.0.0.1/32,10.0.0.0/24,10.9.0.0/16", "Endpoint = wg:12345",
     "PersistentKeepalive = 15"]
  }

  function LaptopSection(): seq<string> {
    ["", "[Peer]", "PublicKey = KL", "AllowedIPs = 10.0.0.2/32", "PersistentKeepalive = 15"]
  }

  lemma HeadPrinted(t: TemplateData)
    requires t.address == "10.0.0.1/32" && t.listenPort == "12345" && t.privateKey == "PRIV"
    ensures HeadLines(t) == Head()
  {
    assert "Address = " + "10.0.0.1/32" == "Address = 10.0.0.1/32";
    assert "ListenPort = " + "12345" == "ListenPort = 12345";
    assert "PrivateKey = " + "PRIV" == "PrivateKey = PRIV";
  }

  lemma KeyPrinted()
    ensures "PublicKey = " + "KS" == "PublicKey = KS"
  {
  }

  lemma RoutesPrinted()
    ensures "AllowedIPs = " + "10.0.0.1/32,10.0.0.0/24,10.9.0.0/16"
            == "AllowedIPs = 10.0.0.1/32,10.0.0.0/24,10.9.0.0/16"
  {
  }

  lemma EndpointPrinted()
    ensures "Endpoint = " + "wg:12345" == "Endpoint = wg:12345"
  {
  }

  lemma ServerSectionPrinted(d: PeerData)
    requires d == PeerData("KS", "10.0.0.1/32,10.0.0.0/24,10.9.0.0/16", "wg:12345")
    ensures PeerLines(d) == ServerSection()
  {
    KeyPrinted();
    RoutesPrinted();
    EndpointPrinted();
  }

  lemma LaptopSectionPrinted(d: PeerData)
    requires d == PeerData("KL", "10.0.0.2/32", "")
    ensures PeerLines(d) == LaptopSection()
  {
    assert "PublicKey = " + "KL" == "PublicKey = KL";
    assert "AllowedIPs = " + d.allowedIPs == "AllowedIPs = 10.0.0.2/32";
  }

  lemma SectionsOfTwo(a: PeerData, b: PeerData)
    ensures PeersLines([a, b]) == PeerLines(a) + PeerLines(b)
  {
    hide PeerLines;
    assert [a, b][1..] == [b] && [b][1..] == [];
    assert PeersLines([b]) == PeerLines(b);
  }

  lemma DataPrinted()
    ensures AllData(Printed().status.peers) ==
            [PeerData("KS", "10.0.0.1/32,10.0.0.0/24,10.9.0.0/16", "wg:12345"), PeerData("KL", "10.0.0.2/32", "")]
  {
    hide Join;
    ListsJoined();
  }

  lemma MaskAppended()
    ensures "10.0.0.1" + "/32" == "10.0.0.1/32"
  {
  }

  /** The file for the same peer, line by line. */
  lemma FilePrinted()
    ensures ConfText("PRIV", Printed()) == Ok(Unlines(Head() + (ServerSection() + LaptopSection() + [""])))
  {
    hide SplitHostPort, AllData, Render, Unlines, HeadLines, PeersLines, PeerLines, Head, ServerSection, LaptopSection;
    Endpoints();
    DataPrinted();
    MaskAppended();
    var a, b := PeerData("KS", "10.0.0.1/32,10.0.0.0/24,10.9.0.0/16", "wg:12345"), PeerData("KL", "10.0.0.2/32", "");
    var t := TemplateData("10.0.0.1/32", "12345", "PRIV", [a, b]);
    TextIsLines(t);
    HeadPrinted(t);
    SectionsOfTwo(a, b);
    ServerSectionPrinted(a);
    LaptopSectionPrinted(b);
  }
}
