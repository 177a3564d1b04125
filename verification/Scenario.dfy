/** A server and two roaming clients with a static route for the subnet, as in the repository's guide. */
module Scenario {
  import opened Common
  import opened Text
  import opened Api
  import opened PeerController
  import opened Ipv4
  import opened Reachability

  /** The address 10.20.40.last. */
  function Address(last: string): string {
    Join(["10", "20", "40", last], '.')
  }

  function NewPeer(name: string, endpoint: string, last: string): Peer {
    Peer(ObjectMeta(name, map[]), 1, PeerSpec("key", endpoint), PeerStatus(Address(last), "examplenet", []))
  }

  function SubnetRoute(): string {
    Address("0") + "/" + "24"
  }

  function SubnetBinding(): RouteBinding {
    RouteBinding("examplenet-subnet-default-route", [SubnetRoute()], PeerSelector(["server"], map[]), "examplenet")
  }

  lemma TwoDigits(a: char, b: char)
    requires IsDigit(a) && IsDigit(b)
    ensures Digits([a, b]) == Some(10 * (a as int - '0' as int) + (b as int - '0' as int))
  {
    assert [a, b][..1] == [a] && [a][..0] == [];
    assert Value([a]) == a as int - '0' as int;
  }

  lemma Decimals()
    ensures Octet("10") == Some(10) && Octet("20") == Some(20) && Octet("30") == Some(30) && Octet("40") == Some(40)
    ensures Octet("0") == Some(0) && Digits("24") == Some(24)
  {
    TwoDigits('1', '0');
    TwoDigits('2', '0');
    TwoDigits('3', '0');
    TwoDigits('4', '0');
    TwoDigits('2', '4');
    assert ['1', '0'] == "10" && ['2', '0'] == "20" && ['3', '0'] == "30" && ['4', '0'] == "40" && ['2', '4'] == "24";
    assert "0"[..0] == "";
    assert Value("0") == 0;
  }

  lemma DigitsHaveNoDot(s: string)
    requires Octet(s).Some?
    ensures '.' !in s
  {
  }

  lemma AddressSplits(last: string)
    requires Octet(last).Some?
    ensures Split(Address(last), '.') == ["10", "20", "40", last]
  {
    Decimals();
    DigitsHaveNoDot("10");
    DigitsHaveNoDot("20");
    DigitsHaveNoDot("40");
    DigitsHaveNoDot(last);
    SplitJoinFree(["10", "20", "40", last], '.');
  }

  lemma AddressParses(last: string)
    requires Octet(last).Some?
    ensures ParseQuad(Address(last)) == Some(169093120 + Octet(last).value)
    ensures '/' !in Address(last)
  {
    Decimals();
    AddressSplits(last);
    QuadHasNoSlash(Address(last));
  }

  lemma RouteParses()
    ensures ParsePrefix(SubnetRoute()) == Some(Prefix(169093120, 24))
  {
    Decimals();
    AddressParses("0");
    PrefixParses(Address("0"), "24");
  }

  lemma Pow2Of8()
    ensures Pow2(8) == 256
  {
    assert Pow2(2) == 4;
    assert Pow2(4) == 16;
    assert Pow2(6) == 64;
  }

  lemma RouteCovers(ip: nat)
    requires 169093120 <= ip < 169093120 + 256
    ensures Covers(SubnetRoute(), ip)
  {
    RouteParses();
    Pow2Of8();
    assert ip / 256 == 660520 == 169093120 / 256;
  }

  /** What matters of a member: its address, and whether it listens. */
  ghost predicate Fits(q: Peer, name: string, last: nat, listens: bool) {
    && q.meta == ObjectMeta(name, map[])
    && q.status.network == "examplenet" && q.status.address != ""
    && Ip(q) == Some(169093120 + last) && last < 256
    && Splits(q.spec.endpoint) && Listens(q) == listens
  }

  lemma MemberFits(name: string, host: string, last: string)
    requires Plain(host) && Octet(last).Some?
    ensures Fits(NewPeer(name, host + ":" + "12345", last), name, Octet(last).value, host != "")
  {
    AddressParses(last);
    PlainSplits(host, "12345");
    assert |Address(last)| > 0;
  }

  /** Only the server carries the route. */
  lemma Carried(q: Peer, cidr: string)
    requires q.meta.labels == map[]
    ensures Carries(q, [SubnetBinding()], cidr) <==> q.meta.name == "server" && cidr == SubnetRoute()
  {
    assert SubnetBinding() in [SubnetBinding()];
  }

  lemma DistinctNames(s: Peer, l: Peer, p: Peer)
    requires s.meta.name == "server" && l.meta.name == "laptop" && p.meta.name == "phone"
    ensures "server" != "laptop" && "server" != "phone" && "laptop" != "phone"
    ensures UniqueNames(PeerNames([l, p, s]))
  {
    assert |"server"| == 6 && |"laptop"| == 6 && |"phone"| == 5 && "server"[0] == 's' && "laptop"[0] == 'l';
  }

  ghost predicate Trio(s: Peer, l: Peer, p: Peer) {
    Fits(s, "server", 10, true) && Fits(l, "laptop", 20, false) && Fits(p, "phone", 30, false)
  }

  lemma TrioMembers(s: Peer, l: Peer, p: Peer, q: Peer)
    requires Trio(s, l, p) && q in [l, p, s]
    ensures q == l || q == p || q == s
    ensures Member("examplenet", [l, p, s], q) && Computable(q, [l, p, s])
    ensures Ip(q).Some? && 169093120 <= Ip(q).value < 169093120 + 256
    ensures q.meta.labels == map[] && (q.meta.name == "server" <==> q == s)
  {
    DistinctNames(s, l, p);
  }

  lemma TrioCovers(s: Peer, l: Peer, p: Peer, q: Peer)
    requires Trio(s, l, p) && q in [l, p, s]
    ensures Ip(q).Some? && Covers(SubnetRoute(), Ip(q).value)
    ensures forall cidr :: Carries(q, [SubnetBinding()], cidr) <==> q == s && cidr == SubnetRoute()
  {
    TrioMembers(s, l, p, q);
    RouteCovers(Ip(q).value);
    forall cidr ensures Carries(q, [SubnetBinding()], cidr) <==> q == s && cidr == SubnetRoute() {
      Carried(q, cidr);
    }
  }

  lemma Differ(q: Peer, r: Peer, name: string, name': string, last: nat, last': nat, a: bool, b: bool)
    requires Fits(q, name, last, a) && Fits(r, name', last', b) && last != last'
    ensures Ip(q) != Ip(r)
  {
  }

  lemma TrioAddresses(s: Peer, l: Peer, p: Peer)
    requires Trio(s, l, p)
    ensures Ip(s) != Ip(l) && Ip(s) != Ip(p) && Ip(l) != Ip(p)
  {
    Differ(s, l, "server", "laptop", 10, 20, true, false);
    Differ(s, p, "server", "phone", 10, 30, true, false);
    Differ(l, p, "laptop", "phone", 20, 30, false, false);
  }

  /** A prefix carried by the hub that covers everyone makes a hub, if all other peers carry only shorter prefixes. */
  lemma OneRouteHub(network: string, peers: seq<Peer>, bindings: seq<RouteBinding>, hub: Peer, cidr: string)
    requires UniqueNames(PeerNames(peers)) && hub in peers && Listens(hub)
    requires forall q <- peers ::
        Member(network, peers, q) && Computable(q, peers) && Ip(q).Some? && Covers(cidr, Ip(q).value)
    requires forall q <- peers, r <- peers :: q != r ==> Ip(q) != Ip(r)
    requires Carries(hub, bindings, cidr) && ParsePrefix(cidr).Some?
    requires forall q <- peers, c :: Carries(q, bindings, c) ==>
               && ParsePrefix(c).Some? && ParsePrefix(c).value.len < 32
               && (q == hub || ParsePrefix(c).value.len < ParsePrefix(cidr).value.len)
    ensures HasHub(network, peers, bindings, hub)
  {
    var len := ParsePrefix(cidr).value.len;
    forall d | d in peers && d != hub ensures Longest(network, peers, bindings, hub, d) {
      assert CoversAt(hub, bindings, Ip(d).value, len);
      assert Above(network, peers, bindings, hub, d, Ip(d).value, len);
    }
  }

  lemma TrioAll(s: Peer, l: Peer, p: Peer, peers: seq<Peer>)
    requires Trio(s, l, p) && peers == [l, p, s]
    ensures forall q <- peers ::
        Member("examplenet", peers, q) && Computable(q, peers) && Ip(q).Some? && Covers(SubnetRoute(), Ip(q).value)
    ensures forall q <- peers, c :: Carries(q, [SubnetBinding()], c) <==> q == s && c == SubnetRoute()
  {
    forall q | q in peers
      ensures Member("examplenet", peers, q) && Computable(q, peers) && Ip(q).Some?
      ensures Covers(SubnetRoute(), Ip(q).value)
    {
      TrioMembers(s, l, p, q);
      TrioCovers(s, l, p, q);
    }
    forall q, c | q in peers ensures Carries(q, [SubnetBinding()], c) <==> q == s && c == SubnetRoute() {
      TrioCovers(s, l, p, q);
    }
  }

  lemma ThreeDistinct(s: Peer, l: Peer, p: Peer, peers: seq<Peer>)
    requires peers == [l, p, s] && Ip(s) != Ip(l) && Ip(s) != Ip(p) && Ip(l) != Ip(p)
    ensures forall q <- peers, r <- peers :: q != r ==> Ip(q) != Ip(r)
  {
    forall q, r | q in peers && r in peers && q != r ensures Ip(q) != Ip(r) {
      assert (q == l || q == p || q == s) && (r == l || r == p || r == s);
    }
  }

  lemma TrioHasHub(s: Peer, l: Peer, p: Peer, peers: seq<Peer>)
    requires Trio(s, l, p) && peers == [l, p, s]
    ensures HasHub("examplenet", peers, [SubnetBinding()], s)
  {
    DistinctNames(s, l, p);
    TrioAll(s, l, p, peers);
    TrioAddresses(s, l, p);
    ThreeDistinct(s, l, p, peers);
    RouteParses();
    OneRouteHub("examplenet", peers, [SubnetBinding()], s, SubnetRoute());
  }

  function Server(): Peer {
    NewPeer("server", "wg" + ":" + "12345", "10")
  }

  function Laptop(): Peer {
    NewPeer("laptop", "" + ":" + "12345", "20")
  }

  function Phone(): Peer {
    NewPeer("phone", "" + ":" + "12345", "30")
  }

  /** In the guide's setup the server is a hub, and the two clients cannot be connected directly. */
  lemma ServerIsHub()
    ensures HasHub("examplenet", [Laptop(), Phone(), Server()], [SubnetBinding()], Server())
    ensures Trio(Server(), Laptop(), Phone()) && !Linked(Laptop(), Phone())
  {
    Decimals();
    MemberFits("server", "wg", "10");
    MemberFits("laptop", "", "20");
    MemberFits("phone", "", "30");
    TrioHasHub(Server(), Laptop(), Phone(), [Laptop(), Phone(), Server()]);
  }

  // ---- An exit node beside the server ----

  function ExitRoute(): string {
    Join(["0", "0", "0", "0"], '.') + "/" + "0"
  }

  /** The phone offers a route to everything. */
  function ExitBinding(): RouteBinding {
    RouteBinding("exit", [ExitRoute()], PeerSelector(["phone"], map[]), "examplenet")
  }

  lemma ExitParses()
    ensures ParsePrefix(ExitRoute()).Some? && ParsePrefix(ExitRoute()).value.len == 0
    ensures ParsePrefix(ExitRoute()).value.ip < 0x1_0000_0000
  {
    var host := Join(["0", "0", "0", "0"], '.');
    Decimals();
    DigitsHaveNoDot("0");
    SplitJoinFree(["0", "0", "0", "0"], '.');
    assert ParseQuad(host).Some?;
    assert Digits("0") == Some(0);
    PrefixParses(host, "0");
  }

  lemma {:induction false} Pow2Sum(a: nat, b: nat)
    ensures Pow2(a + b) == Pow2(a) * Pow2(b)
  {
    if a != 0 {
      Pow2Sum(a - 1, b);
    }
  }

  lemma EverythingCovered(p: Prefix, ip: nat)
    requires p.len == 0 && p.ip < 0x1_0000_0000 && ip < 0x1_0000_0000
    ensures Contains(p, ip)
  {
    Pow2Of8();
    Pow2Sum(8, 8);
    Pow2Sum(16, 16);
    assert Pow2(32) == 0x1_0000_0000;
    assert ip / 0x1_0000_0000 == 0 == p.ip / 0x1_0000_0000;
  }

  lemma CarriedBesideExit(q: Peer, cidr: string)
    requires q.meta.labels == map[]
    ensures Carries(q, [SubnetBinding(), ExitBinding()], cidr) <==>
              (q.meta.name == "server" && cidr == SubnetRoute()) || (q.meta.name == "phone" && cidr == ExitRoute())
  {
    var bindings := [SubnetBinding(), ExitBinding()];
    assert bindings[0] in bindings && bindings[1] in bindings;
    assert forall rr <- bindings :: rr == bindings[0] || rr == bindings[1];
  }

  lemma TrioBesideExit(s: Peer, l: Peer, p: Peer, peers: seq<Peer>)
    requires Trio(s, l, p) && peers == [l, p, s]
    ensures HasHub("examplenet", peers, [SubnetBinding(), ExitBinding()], s)
  {
    var bindings := [SubnetBinding(), ExitBinding()];
    DistinctNames(s, l, p);
    TrioAll(s, l, p, peers);
    TrioAddresses(s, l, p);
    ThreeDistinct(s, l, p, peers);
    RouteParses();
    ExitParses();
    CarriedBesideExit(s, SubnetRoute());
    forall q, c | q in peers && Carries(q, bindings, c)
      ensures ParsePrefix(c).Some? && ParsePrefix(c).value.len < 32 && (q == s || ParsePrefix(c).value.len < 24)
    {
      TrioMembers(s, l, p, q);
      CarriedBesideExit(q, c);
    }
    OneRouteHub("examplenet", peers, bindings, s, SubnetRoute());
  }

  /** The server stays the hub when another member offers a default route: the subnet's route is longer. */
  lemma ServerIsHubBesideExit()
    ensures HasHub("examplenet", [Laptop(), Phone(), Server()], [SubnetBinding(), ExitBinding()], Server())
    ensures Carries(Phone(), [SubnetBinding(), ExitBinding()], ExitRoute())
    ensures Ip(Laptop()).Some? && Covers(ExitRoute(), Ip(Laptop()).value)
  {
    ServerIsHub();
    TrioBesideExit(Server(), Laptop(), Phone(), [Laptop(), Phone(), Server()]);
    CarriedBesideExit(Phone(), ExitRoute());
    ExitParses();
    EverythingCovered(ParsePrefix(ExitRoute()).value, Ip(Laptop()).value);
  }

  /** So the clients reach each other in two hops. */
  lemma ClientsMeetAtServer()
    ensures var peers, bindings := [Laptop(), Phone(), Server()], [SubnetBinding()];
            && Mesh(Laptop(), peers, bindings).Ok?
            && Mesh(Server(), peers, bindings).Ok?
            && Mesh(Phone(), peers, bindings).Ok?
            && TwoHops(Mesh(Laptop(), peers, bindings).value, Mesh(Server(), peers, bindings).value,
                Mesh(Phone(), peers, bindings).value,
                       Laptop(), Server(), Phone())
  {
    ServerIsHub();
    TrioDelivers(Server(), Laptop(), Phone(), [Laptop(), Phone(), Server()], [SubnetBinding()]);
  }

  lemma TrioDelivers(s: Peer, l: Peer, p: Peer, peers: seq<Peer>, bindings: seq<RouteBinding>)
    requires peers == [l, p, s] && HasHub("examplenet", peers, bindings, s) && Trio(s, l, p) && !Linked(l, p)
    ensures Mesh(l, peers, bindings).Ok? && Mesh(s, peers, bindings).Ok? && Mesh(p, peers, bindings).Ok?
    ensures TwoHops(Mesh(l, peers, bindings).value, Mesh(s, peers, bindings).value,
        Mesh(p, peers, bindings).value, l, s, p)
  {
    TrioMembers(s, l, p, l);
    TrioMembers(s, l, p, p);
    HubReachability("examplenet", peers, bindings, s, l, p);
  }
}
