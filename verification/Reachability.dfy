/** Routing over the generated AllowedIPs: IPv4 prefixes (section 3.1 of RFC 4632) and longest-prefix lookup. */
module Ipv4 {
  import opened Common
  import opened Text

  predicate IsDigit(c: char) {
    '0' <= c <= '9'
  }

  function Digits(s: string): Option<nat> {
    if s == "" || exists c <- s :: !IsDigit(c) then None else Some(Value(s))
  }

  function Value(s: string): nat
    requires forall c <- s :: IsDigit(c)
  {
    if s == "" then 0
    else
      var last := s[|s| - 1];
      assert last in s && IsDigit(last);
      10 * Value(s[..|s| - 1]) + (last as int - '0' as int)
  }

  function Octet(s: string): (r: Option<nat>)
    ensures r.Some? ==> r.value < 256 && forall c <- s :: IsDigit(c)
  {
    match Digits(s)
    case Some(v) => if v < 256 then Some(v) else None
    case None => None
  }

  /** Four octets separated by dots, as one 32-bit number. */
  function ParseQuad(s: string): (r: Option<nat>)
    ensures r.Some? ==> r.value < 0x1_0000_0000
  {
    var parts := Split(s, '.');
    if |parts| != 4 then None
    else
      match (Octet(parts[0]), Octet(parts[1]), Octet(parts[2]), Octet(parts[3]))
      case (Some(a), Some(b), Some(c), Some(d)) => Some(((a * 256 + b) * 256 + c) * 256 + d)
      case _ => None
  }

  datatype Prefix = Prefix(ip: nat, len: nat)

  /** Address, slash, prefix length; as `wg` reads it, an address alone is a prefix of full length. */
  function ParsePrefix(s: string): (r: Option<Prefix>)
    ensures r.Some? ==> r.value.len <= 32
  {
    var i := Index(s, '/');
    if i < 0 then
      match ParseQuad(s)
      case Some(ip) => Some(Prefix(ip, 32))
      case None => None
    else
      match (ParseQuad(s[..i]), Digits(s[i + 1..]))
      case (Some(ip), Some(len)) => if len <= 32 then Some(Prefix(ip, len)) else None
      case _ => None
  }

  function Pow2(n: nat): (r: nat)
    ensures r > 0
  {
    if n == 0 then 1 else 2 * Pow2(n - 1)
  }

  /** The first `len` bits agree. */
  predicate Contains(p: Prefix, ip: nat)
    requires p.len <= 32
  {
    ip / Pow2(32 - p.len) == p.ip / Pow2(32 - p.len)
  }

  lemma SameQuotient(a: nat, b: nat, m: nat)
    requires m > 0
    ensures a / m == b / m <==> b / m * m <= a < b / m * m + m
  {
    var q, r := a / m, b / m;
    assert a == q * m + a % m;
    if q < r {
      assert (q + 1) * m <= r * m;
    } else if q > r {
      assert (r + 1) * m <= q * m;
    }
  }

  /** A prefix contains a block of as many addresses as its missing bits can count, beginning at a multiple of that. */
  lemma ContainsBlock(p: Prefix, ip: nat)
    requires p.len <= 32
    ensures var m := Pow2(32 - p.len);
            Contains(p, ip) <==> p.ip / m * m <= ip < p.ip / m * m + m
  {
    SameQuotient(ip, p.ip, Pow2(32 - p.len));
  }

  lemma QuadHasNoSlash(s: string)
    requires ParseQuad(s).Some?
    ensures '/' !in s
  {
    var parts := Split(s, '.');
    assert forall p <- parts :: p == parts[0] || p == parts[1] || p == parts[2] || p == parts[3];
    SplitChars(s, '.', '/');
  }

  /** Address, slash and length read back as a prefix. */
  lemma PrefixParses(host: string, mask: string)
    requires ParseQuad(host).Some? && Digits(mask).Some? && Digits(mask).value <= 32
    ensures ParsePrefix(host + "/" + mask) == Some(Prefix(ParseQuad(host).value, Digits(mask).value))
  {
    QuadHasNoSlash(host);
    IndexUnique(host, '/', mask);
    var s := host + "/" + mask;
    assert s == host + ['/'] + mask;
    assert s[..|host|] == host && s[|host| + 1..] == mask;
  }

  lemma Digits32()
    ensures Digits("32") == Some(32)
  {
    assert "32"[..1] == "3" && "3"[..0] == "";
    assert Value("3") == 3;
    assert Value("32") == 32;
  }

  lemma Mask32(host: string)
    ensures host + "/32" == host + "/" + "32"
  {
    assert "/32" == "/" + "32";
  }

  /** An address with the mask 32 appended is the prefix of that one address. */
  lemma HostPrefix(host: string)
    requires ParseQuad(host).Some?
    ensures ParsePrefix(host + "/32") == Some(Prefix(ParseQuad(host).value, 32))
  {
    Digits32();
    PrefixParses(host, "32");
    Mask32(host);
  }
}

module Reachability {
  import opened Common
  import opened Api
  import opened PeerController
  import opened MeshFacts
  import opened Ipv4

  /** Some allowed prefix of length `len` contains the address. */
  ghost predicate Hits(allowedIPs: seq<string>, ip: nat, len: nat) {
    exists cidr <- allowedIPs ::
      ParsePrefix(cidr).Some? && ParsePrefix(cidr).value.len == len && Contains(ParsePrefix(cidr).value, ip)
  }

  /** Entry `k` has a matching prefix of length `len`; no entry has a longer one, and no later entry one as long: giving
      the same prefix to a peer takes it away from the peer that had it before. */
  ghost predicate Wins(cfgs: seq<PeerConfiguration>, ip: nat, k: nat, len: nat) {
    && k < |cfgs| && Hits(cfgs[k].allowedIPs, ip, len)
    && forall j: nat, l: nat :: j < |cfgs| && Hits(cfgs[j].allowedIPs, ip, l) ==> l < len || (l == len && j <= k)
  }

  /** Longest-prefix lookup in the peers as one `wg set` configures them. */
  ghost predicate RoutesTo(cfgs: seq<PeerConfiguration>, ip: nat, name: string) {
    exists k: nat, len: nat :: Wins(cfgs, ip, k, len) && cfgs[k].name == name
  }

  /** A lookup has at most one result. */
  lemma RoutesToUnique(cfgs: seq<PeerConfiguration>, ip: nat, name: string, other: string)
    requires RoutesTo(cfgs, ip, name) && RoutesTo(cfgs, ip, other)
    ensures name == other
  {
    var k: nat, len: nat :| Wins(cfgs, ip, k, len) && cfgs[k].name == name;
    var j: nat, l: nat :| Wins(cfgs, ip, j, l) && cfgs[j].name == other;
    assert k == j;
  }

  /** The IPv4 address of a peer. */
  function Ip(q: Peer): Option<nat> {
    ParseQuad(SplitNetMask(q.status.address).0)
  }

  /** A route that some binding gives to a peer. */
  ghost predicate Carries(q: Peer, bindings: seq<RouteBinding>, cidr: string) {
    exists rr <- bindings :: Matches(q.meta, rr.selector) && cidr in rr.routes
  }

  ghost predicate Covers(cidr: string, ip: nat) {
    ParsePrefix(cidr).Some? && Contains(ParsePrefix(cidr).value, ip)
  }

  /** A peer carries a route of length `len` that contains the address. */
  ghost predicate CoversAt(q: Peer, bindings: seq<RouteBinding>, ip: nat, len: nat) {
    exists cidr :: Carries(q, bindings, cidr) && Covers(cidr, ip) && ParsePrefix(cidr).value.len == len
  }

  /** The addressed peers of a network. */
  ghost predicate Member(network: string, peers: seq<Peer>, q: Peer) {
    q in peers && q.status.network == network && q.status.address != ""
  }

  /** Members have distinct IPv4 addresses and computable lists, and carry only routes that `wg` can read. */
  ghost predicate Routable(network: string, peers: seq<Peer>, bindings: seq<RouteBinding>) {
    && UniqueNames(PeerNames(peers))
    && (forall q <- peers :: Member(network, peers, q) ==> Ip(q).Some? && Computable(q, peers))
    && (forall q <- peers, r <- peers :: Member(network, peers, q) && Member(network, peers, r) && q != r ==>
        Ip(q) != Ip(r))
    && (forall q <- peers, cidr :: Member(network, peers, q) && Carries(q, bindings, cidr) ==> ParsePrefix(cidr).Some?)
  }

  /** Peer `w` is listed after `q`. */
  ghost predicate Later(peers: seq<Peer>, q: Peer, w: Peer) {
    exists i, j :: 0 <= i < j < |peers| && peers[i] == q && peers[j] == w
  }

  /** No peer that `s` is linked to and that is listed after `d` carries a route to just the address of `d`. */
  ghost predicate Exclusive(peers: seq<Peer>, bindings: seq<RouteBinding>, s: Peer, d: Peer) {
    Ip(d).Some? && forall q <- peers :: Linked(s, q) && Later(peers, d, q) ==> !CoversAt(q, bindings, Ip(d).value, 32)
  }

  /** All other peers that `s` is linked to carry only routes to the address that are shorter than `len`, or as long but
      listed before the hub. */
  ghost predicate Beats(peers: seq<Peer>, bindings: seq<RouteBinding>, s: Peer, hub: Peer, ip: nat, len: nat) {
    forall q <- peers, l: nat :: Linked(s, q) && q != hub && CoversAt(q, bindings, ip, l) ==>
      l < len || (l == len && Later(peers, q, hub))
  }

  /** The hub's route to `d` beats those of every other peer that `s` is linked to. */
  ghost predicate Dominates(peers: seq<Peer>, bindings: seq<RouteBinding>, s: Peer, hub: Peer, d: Peer) {
    Ip(d).Some? && exists len: nat ::
      CoversAt(hub, bindings, Ip(d).value, len) && Beats(peers, bindings, s, hub, Ip(d).value, len)
  }

  lemma AllowedCidrs(q: Peer, bindings: seq<RouteBinding>)
    ensures forall cidr :: cidr in Entry(q, bindings).allowedIPs <==>
              cidr == SplitNetMask(q.status.address).0 + "/32" || Carries(q, bindings, cidr)
  {
    forall cidr
      ensures cidr in Entry(q, bindings).allowedIPs <==>
                cidr == SplitNetMask(q.status.address).0 + "/32" || Carries(q, bindings, cidr)
    {
      AllowedExact(q, bindings, cidr);
    }
  }

  lemma OwnCidr(q: Peer, ip: nat)
    requires Ip(q).Some?
    ensures var own := ParsePrefix(SplitNetMask(q.status.address).0 + "/32");
            own.Some? && own.value.len == 32 && (Contains(own.value, ip) <==> ip == Ip(q).value)
  {
    HostPrefix(SplitNetMask(q.status.address).0);
    assert Pow2(0) == 1;
  }

  /** What an entry matches: its own address at full length, and what its routes cover. */
  lemma HitsEntry(q: Peer, bindings: seq<RouteBinding>, ip: nat, len: nat)
    requires Ip(q).Some?
    ensures Hits(Entry(q, bindings).allowedIPs, ip, len) <==>
        (len == 32 && ip == Ip(q).value) || CoversAt(q, bindings, ip, len)
    ensures Hits(Entry(q, bindings).allowedIPs, ip, len) ==> len <= 32
  {
    AllowedCidrs(q, bindings);
    OwnCidr(q, ip);
    assert SplitNetMask(q.status.address).0 + "/32" in Entry(q, bindings).allowedIPs;
  }

  // ---- Order of the list ----

  /** Where the entry of a linked peer stands. */
  lemma IndexOf(s: Peer, peers: seq<Peer>, bindings: seq<RouteBinding>, q: Peer) returns (k: nat)
    requires q in peers && Linked(s, q)
    ensures k < |Places(s, peers)| == |Entries(s, peers, bindings)| && Places(s, peers)[k] < |peers|
    ensures peers[Places(s, peers)[k]] == q && Entries(s, peers, bindings)[k] == Entry(q, bindings)
  {
    var idx := Places(s, peers);
    EntriesExact(s, peers, bindings);
    var i: nat :| i < |peers| && peers[i] == q;
    k :| 0 <= k < |idx| && idx[k] == i;
  }

  /** Whose entry stands at a place. */
  lemma EntryAt(s: Peer, peers: seq<Peer>, bindings: seq<RouteBinding>, k: nat) returns (q: Peer)
    requires k < |Entries(s, peers, bindings)|
    ensures k < |Places(s, peers)| && Places(s, peers)[k] < |peers| && peers[Places(s, peers)[k]] == q
    ensures q in peers && Linked(s, q) && Entries(s, peers, bindings)[k] == Entry(q, bindings)
  {
    EntriesExact(s, peers, bindings);
    q := peers[Places(s, peers)[k]];
  }

  lemma SameIndex(peers: seq<Peer>, i: nat, j: nat)
    requires UniqueNames(PeerNames(peers)) && i < |peers| && j < |peers| && peers[i] == peers[j]
    ensures i == j
  {
    assert PeerNames(peers)[i] == PeerNames(peers)[j];
  }

  /** Entries stand in the order of the peer list. */
  lemma OrderKept(s: Peer, peers: seq<Peer>, j: nat, k: nat)
    requires UniqueNames(PeerNames(peers)) && j < |Places(s, peers)| && k < |Places(s, peers)|
    requires Places(s, peers)[j] < |peers| && Places(s, peers)[k] < |peers|
    ensures Later(peers, peers[Places(s, peers)[j]], peers[Places(s, peers)[k]]) <==> j < k
    ensures peers[Places(s, peers)[j]] == peers[Places(s, peers)[k]] <==> j == k
  {
    var idx := Places(s, peers);
    PlacesExact(s, peers);
    if Later(peers, peers[idx[j]], peers[idx[k]]) {
      var a: nat, b: nat :| a < b < |peers| && peers[a] == peers[idx[j]] && peers[b] == peers[idx[k]];
      SameIndex(peers, a, idx[j]);
      SameIndex(peers, b, idx[k]);
    }
    if peers[idx[j]] == peers[idx[k]] {
      SameIndex(peers, idx[j], idx[k]);
    }
  }

  lemma LaterOnce(peers: seq<Peer>, q: Peer, w: Peer)
    requires UniqueNames(PeerNames(peers)) && q in peers && w in peers
    ensures q != w ==> (Later(peers, q, w) <==> !Later(peers, w, q))
    ensures q == w ==> !Later(peers, q, w)
  {
    var i: nat :| i < |peers| && peers[i] == q;
    var j: nat :| j < |peers| && peers[j] == w;
    forall a: nat, b: nat | a < |peers| && b < |peers| && peers[a] == peers[b] ensures a == b {
      SameIndex(peers, a, b);
    }
    assert i < j ==> Later(peers, q, w);
    assert j < i ==> Later(peers, w, q);
  }

  /** Peer `w` has a longest hit among the linked peers, and is listed after all others that have one as long. */
  ghost predicate Best(peers: seq<Peer>, bindings: seq<RouteBinding>, s: Peer, ip: nat, w: Peer, len: nat) {
    && Hits(Entry(w, bindings).allowedIPs, ip, len)
    && forall q <- peers, l: nat :: Linked(s, q) && Hits(Entry(q, bindings).allowedIPs, ip, l) ==>
         l < len || (l == len && (q == w || Later(peers, q, w)))
  }

  /** The winner of a lookup is the best linked peer. */
  lemma WinnerIsBest(peers: seq<Peer>, bindings: seq<RouteBinding>, s: Peer, ip: nat, w: Peer) returns (len: nat)
    requires UniqueNames(PeerNames(peers)) && w in peers && RoutesTo(Entries(s, peers, bindings), ip, w.meta.name)
    ensures Linked(s, w) && Best(peers, bindings, s, ip, w, len)
  {
    var cfgs := Entries(s, peers, bindings);
    var k: nat, n: nat :| Wins(cfgs, ip, k, n) && cfgs[k].name == w.meta.name;
    len := n;
    var r := EntryAt(s, peers, bindings, k);
    SameName(peers, r, w);
    forall q, l: nat | q in peers && Linked(s, q) && Hits(Entry(q, bindings).allowedIPs, ip, l)
      ensures l < len || (l == len && (q == w || Later(peers, q, w)))
    {
      var j := IndexOf(s, peers, bindings, q);
      OrderKept(s, peers, j, k);
    }
  }

  lemma BestWins(peers: seq<Peer>, bindings: seq<RouteBinding>, s: Peer, ip: nat, w: Peer, len: nat)
    requires UniqueNames(PeerNames(peers)) && w in peers && Linked(s, w) && Best(peers, bindings, s, ip, w, len)
    ensures RoutesTo(Entries(s, peers, bindings), ip, w.meta.name)
  {
    var cfgs := Entries(s, peers, bindings);
    var k := IndexOf(s, peers, bindings, w);
    forall j: nat, l: nat | j < |cfgs| && Hits(cfgs[j].allowedIPs, ip, l) ensures l < len || (l == len && j <= k) {
      var q := EntryAt(s, peers, bindings, j);
      OrderKept(s, peers, j, k);
    }
    assert Wins(cfgs, ip, k, len);
  }

  // ---- Exact lookups ----

  /** What a linked peer's entry matches at a member's address. */
  lemma LinkedHits(network: string, peers: seq<Peer>, bindings: seq<RouteBinding>, s: Peer, d: Peer, q: Peer, l: nat)
    requires Routable(network, peers, bindings) && Member(network, peers, s) && Member(network, peers, d)
    requires q in peers && Linked(s, q)
    ensures Ip(d).Some? && (Hits(Entry(q, bindings).allowedIPs, Ip(d).value, l) <==>
                              (l == 32 && q == d) || CoversAt(q, bindings, Ip(d).value, l))
    ensures Hits(Entry(q, bindings).allowedIPs, Ip(d).value, l) ==> l <= 32
  {
    assert Member(network, peers, q);
    HitsEntry(q, bindings, Ip(d).value, l);
  }

  lemma DirectNeedsExclusive(network: string, peers: seq<Peer>, bindings: seq<RouteBinding>, s: Peer, d: Peer)
    requires Routable(network, peers, bindings) && Member(network, peers, s) && Member(network, peers, d)
    requires Linked(s, d)
    requires Ip(d).Some? && RoutesTo(Entries(s, peers, bindings), Ip(d).value, d.meta.name)
    ensures Exclusive(peers, bindings, s, d)
  {
    var ip := Ip(d).value;
    var len := WinnerIsBest(peers, bindings, s, ip, d);
    LinkedHits(network, peers, bindings, s, d, d, 32);
    LinkedHits(network, peers, bindings, s, d, d, len);
    forall q | q in peers && Linked(s, q) && Later(peers, d, q) ensures !CoversAt(q, bindings, ip, 32) {
      LinkedHits(network, peers, bindings, s, d, q, 32);
      LaterOnce(peers, d, q);
    }
  }

  lemma ExclusiveIsDirect(network: string, peers: seq<Peer>, bindings: seq<RouteBinding>, s: Peer, d: Peer)
    requires Routable(network, peers, bindings) && Member(network, peers, s) && Member(network, peers, d)
    requires Linked(s, d)
    requires Exclusive(peers, bindings, s, d)
    ensures RoutesTo(Entries(s, peers, bindings), Ip(d).value, d.meta.name)
  {
    var ip := Ip(d).value;
    LinkedHits(network, peers, bindings, s, d, d, 32);
    forall q, l: nat | q in peers && Linked(s, q) && Hits(Entry(q, bindings).allowedIPs, ip, l)
      ensures l < 32 || (l == 32 && (q == d || Later(peers, q, d)))
    {
      LinkedHits(network, peers, bindings, s, d, q, l);
      LaterOnce(peers, d, q);
    }
    BestWins(peers, bindings, s, ip, d, 32);
  }

  /** A linked member is looked up directly exactly when no linked peer listed after it carries a route to just
      its address. */
  lemma DirectExact(network: string, peers: seq<Peer>, bindings: seq<RouteBinding>, s: Peer, d: Peer)
    requires Routable(network, peers, bindings) && Member(network, peers, s) && Member(network, peers, d)
    requires Linked(s, d)
    ensures Sends(Entries(s, peers, bindings), d, d) <==> Exclusive(peers, bindings, s, d)
  {
    if Sends(Entries(s, peers, bindings), d, d) {
      DirectNeedsExclusive(network, peers, bindings, s, d);
    }
    if Exclusive(peers, bindings, s, d) {
      ExclusiveIsDirect(network, peers, bindings, s, d);
    }
  }

  lemma {:induction false} LongestHit(allowedIPs: seq<string>, ip: nat, some: nat, bound: nat) returns (len: nat)
    requires some <= bound && Hits(allowedIPs, ip, some)
    ensures some <= len <= bound && Hits(allowedIPs, ip, len)
    ensures forall l: nat :: len < l <= bound ==> !Hits(allowedIPs, ip, l)
  {
    if Hits(allowedIPs, ip, bound) {
      len := bound;
    } else {
      len := LongestHit(allowedIPs, ip, some, bound - 1);
    }
  }

  lemma DetourNeedsDominance(network: string, peers: seq<Peer>, bindings: seq<RouteBinding>, s: Peer, hub: Peer,
                             d: Peer)
    requires Routable(network, peers, bindings) && Member(network, peers, s) && Member(network, peers, d)
    requires Member(network, peers, hub) && hub != d && !Linked(s, d)
    requires Ip(d).Some? && RoutesTo(Entries(s, peers, bindings), Ip(d).value, hub.meta.name)
    ensures Dominates(peers, bindings, s, hub, d)
  {
    var ip := Ip(d).value;
    var len := WinnerIsBest(peers, bindings, s, ip, hub);
    LinkedHits(network, peers, bindings, s, d, hub, len);
    forall q, l: nat | q in peers && Linked(s, q) && q != hub && CoversAt(q, bindings, ip, l)
      ensures l < len || (l == len && Later(peers, q, hub))
    {
      LinkedHits(network, peers, bindings, s, d, q, l);
    }
    assert Beats(peers, bindings, s, hub, ip, len);
  }

  lemma DominanceIsDetour(network: string, peers: seq<Peer>, bindings: seq<RouteBinding>, s: Peer, hub: Peer, d: Peer)
    requires Routable(network, peers, bindings) && Member(network, peers, s) && Member(network, peers, d)
    requires Member(network, peers, hub) && Linked(s, hub) && !Linked(s, d)
    requires Dominates(peers, bindings, s, hub, d)
    ensures RoutesTo(Entries(s, peers, bindings), Ip(d).value, hub.meta.name)
  {
    hide Entry, RoutesTo, Linked, CoversAt, Hits;
    var ip := Ip(d).value;
    var some: nat :| CoversAt(hub, bindings, ip, some) && Beats(peers, bindings, s, hub, ip, some);
    LinkedHits(network, peers, bindings, s, d, hub, some);
    var len := LongestHit(Entry(hub, bindings).allowedIPs, ip, some, 32);
    forall q, l: nat | q in peers && Linked(s, q) && Hits(Entry(q, bindings).allowedIPs, ip, l)
      ensures l < len || (l == len && (q == hub || Later(peers, q, hub)))
    {
      LinkedHits(network, peers, bindings, s, d, q, l);
    }
    BestWins(peers, bindings, s, ip, hub, len);
  }

  /** A member that cannot be connected is looked up at the hub exactly when the hub's longest route to it is longer
      than every other linked peer's, or as long but listed after those. */
  lemma DetourExact(network: string, peers: seq<Peer>, bindings: seq<RouteBinding>, s: Peer, hub: Peer, d: Peer)
    requires Routable(network, peers, bindings) && Member(network, peers, s) && Member(network, peers, d)
    requires Member(network, peers, hub) && Linked(s, hub) && !Linked(s, d) && hub != d
    ensures Sends(Entries(s, peers, bindings), d, hub) <==> Dominates(peers, bindings, s, hub, d)
  {
    if Sends(Entries(s, peers, bindings), d, hub) {
      DetourNeedsDominance(network, peers, bindings, s, hub, d);
    }
    if Dominates(peers, bindings, s, hub, d) {
      DominanceIsDetour(network, peers, bindings, s, hub, d);
    }
  }

  /** Lookup in a list sends traffic for `target` to `hop`. */
  ghost predicate Sends(cfgs: seq<PeerConfiguration>, target: Peer, hop: Peer) {
    Ip(target).Some? && RoutesTo(cfgs, Ip(target).value, hop.meta.name)
  }

  /** One hop: the sender looks the receiver up directly, and the receiver accepts the sender's address from it. */
  ghost predicate OneHop(atS: seq<PeerConfiguration>, atD: seq<PeerConfiguration>, s: Peer, d: Peer) {
    Sends(atS, d, d) && Sends(atD, s, s)
  }

  /** Two hops: the sender looks up the hub, which accepts the sender's address and looks up the receiver, which
      accepts the sender's address from the hub. */
  ghost predicate TwoHops(atS: seq<PeerConfiguration>, atHub: seq<PeerConfiguration>, atD: seq<PeerConfiguration>,
                          s: Peer, hub: Peer, d: Peer) {
    Sends(atS, d, hub) && Sends(atHub, s, s) && Sends(atHub, d, d) && Sends(atD, s, hub)
  }

  /** Traffic passes over the direct link whenever there is one, otherwise through the hub. */
  ghost predicate Delivers(atS: seq<PeerConfiguration>, atHub: seq<PeerConfiguration>, atD: seq<PeerConfiguration>,
                           s: Peer, hub: Peer, d: Peer) {
    if Linked(s, d) then OneHop(atS, atD, s, d) else TwoHops(atS, atHub, atD, s, hub, d)
  }

  lemma SendsSameView(cfgs: seq<PeerConfiguration>, target: Peer, hop: Peer, target': Peer, hop': Peer)
    requires SameView(target, target') && SameView(hop, hop')
    ensures Sends(cfgs, target, hop) == Sends(cfgs, target', hop')
  {
    assert Ip(target) == Ip(target');
  }

  lemma DeliversSameView(atS: seq<PeerConfiguration>, atHub: seq<PeerConfiguration>, atD: seq<PeerConfiguration>,
                         s: Peer, hub: Peer, d: Peer, s': Peer, hub': Peer, d': Peer)
    requires SameView(s, s') && SameView(hub, hub') && SameView(d, d')
    requires Delivers(atS, atHub, atD, s, hub, d)
    ensures Delivers(atS, atHub, atD, s', hub', d')
  {
    assert Linked(s, d) == Linked(s', d');
    SendsSameView(atS, d, d, d', d');
    SendsSameView(atD, s, s, s', s');
    SendsSameView(atS, d, hub, d', hub');
    SendsSameView(atHub, s, s, s', s');
    SendsSameView(atHub, d, d, d', d');
    SendsSameView(atD, s, hub, s', hub');
  }

  /** The condition under which two members reach each other: the direct link is not shadowed where there is one;
      otherwise the hub wins both lookups and is not shadowed towards either. */
  ghost predicate Clear(peers: seq<Peer>, bindings: seq<RouteBinding>, s: Peer, hub: Peer, d: Peer) {
    if Linked(s, d) then Exclusive(peers, bindings, s, d) && Exclusive(peers, bindings, d, s)
    else
      && Dominates(peers, bindings, s, hub, d) && Dominates(peers, bindings, d, hub, s)
      && Exclusive(peers, bindings, hub, s) && Exclusive(peers, bindings, hub, d)
  }

  ghost predicate Hub(network: string, peers: seq<Peer>, hub: Peer) {
    Member(network, peers, hub) && Listens(hub)
  }

  lemma DifferentNames(peers: seq<Peer>, q: Peer, r: Peer)
    requires UniqueNames(PeerNames(peers)) && q in peers && r in peers && q != r
    ensures q.meta.name != r.meta.name
  {
    if q.meta.name == r.meta.name {
      SameName(peers, q, r);
    }
  }

  lemma LinkedBothWays(s: Peer, d: Peer)
    requires s.status.address != "" && d.status.address != ""
    ensures Linked(s, d) <==> Linked(d, s)
  {
  }

  /** Members that cannot be connected are both linked to the hub, and neither is the hub. */
  lemma HubLinks(network: string, peers: seq<Peer>, hub: Peer, s: Peer, d: Peer)
    requires UniqueNames(PeerNames(peers)) && Hub(network, peers, hub)
    requires Member(network, peers, s) && Member(network, peers, d) && s != d && !Linked(s, d)
    ensures s != hub && d != hub && Linked(s, hub) && Linked(d, hub) && Linked(hub, s) && Linked(hub, d)
  {
    DifferentNames(peers, s, d);
    assert s != hub && d != hub;
    DifferentNames(peers, s, hub);
    DifferentNames(peers, d, hub);
  }

  lemma EntriesDeliver(network: string, peers: seq<Peer>, bindings: seq<RouteBinding>, hub: Peer, s: Peer, d: Peer)
    requires Routable(network, peers, bindings) && Hub(network, peers, hub)
    requires Member(network, peers, s) && Member(network, peers, d) && s != d
    ensures Delivers(Entries(s, peers, bindings), Entries(hub, peers, bindings), Entries(d, peers, bindings), s, hub, d)
            <==> Clear(peers, bindings, s, hub, d)
  {
    LinkedBothWays(s, d);
    if Linked(s, d) {
      DirectExact(network, peers, bindings, s, d);
      DirectExact(network, peers, bindings, d, s);
    } else {
      HubLinks(network, peers, hub, s, d);
      DetourExact(network, peers, bindings, s, hub, d);
      DetourExact(network, peers, bindings, d, hub, s);
      DirectExact(network, peers, bindings, hub, s);
      DirectExact(network, peers, bindings, hub, d);
    }
  }

  /** Any two members reach each other, over their link or else through a listening hub, exactly when the way is
      clear. */
  lemma DeliveryExact(network: string, peers: seq<Peer>, bindings: seq<RouteBinding>, hub: Peer, s: Peer, d: Peer)
    requires Routable(network, peers, bindings) && Hub(network, peers, hub)
    requires Member(network, peers, s) && Member(network, peers, d) && s != d
    ensures Mesh(s, peers, bindings).Ok? && Mesh(hub, peers, bindings).Ok? && Mesh(d, peers, bindings).Ok?
    ensures Delivers(Mesh(s, peers, bindings).value, Mesh(hub, peers, bindings).value,
        Mesh(d, peers, bindings).value, s, hub, d)
            <==> Clear(peers, bindings, s, hub, d)
  {
    assert Computable(s, peers) && Computable(hub, peers) && Computable(d, peers);
    EntriesDeliver(network, peers, bindings, hub, s, d);
  }

  /** A hub for the whole network: it carries a longer route to every other member than anyone else, and nobody carries
      a route to just the address of another member. */
  ghost predicate HasHub(network: string, peers: seq<Peer>, bindings: seq<RouteBinding>, hub: Peer) {
    && Routable(network, peers, bindings)
    && Hub(network, peers, hub)
    && (forall d <- peers, q <- peers :: Member(network, peers, d) && Member(network, peers, q) && q != d ==>
          !CoversAt(q, bindings, Ip(d).value, 32))
    && (forall d <- peers :: Member(network, peers, d) && d != hub ==> Longest(network, peers, bindings, hub, d))
  }

  ghost predicate Longest(network: string, peers: seq<Peer>, bindings: seq<RouteBinding>, hub: Peer, d: Peer) {
    Ip(d).Some? && exists len: nat ::
      CoversAt(hub, bindings, Ip(d).value, len) && Above(network, peers, bindings, hub, d, Ip(d).value, len)
  }

  ghost predicate Above(network: string, peers: seq<Peer>, bindings: seq<RouteBinding>, hub: Peer, d: Peer, ip: nat,
                        len: nat) {
    forall q <- peers, l: nat ::
      Member(network, peers, q) && q != hub && q != d && CoversAt(q, bindings, ip, l) ==> l < len
  }

  lemma HubExclusive(network: string, peers: seq<Peer>, bindings: seq<RouteBinding>, hub: Peer, s: Peer, d: Peer)
    requires HasHub(network, peers, bindings, hub) && Member(network, peers, s) && Member(network, peers, d)
    ensures Exclusive(peers, bindings, s, d)
  {
    forall q | q in peers && Linked(s, q) && Later(peers, d, q) ensures !CoversAt(q, bindings, Ip(d).value, 32) {
      assert Member(network, peers, q);
      LaterOnce(peers, d, q);
    }
  }

  lemma HubDominates(network: string, peers: seq<Peer>, bindings: seq<RouteBinding>, hub: Peer, s: Peer, d: Peer)
    requires HasHub(network, peers, bindings, hub) && Member(network, peers, s) && Member(network, peers, d)
    requires d != hub && !Linked(s, d)
    ensures Dominates(peers, bindings, s, hub, d)
  {
    assert Longest(network, peers, bindings, hub, d);
    var ip := Ip(d).value;
    var len: nat :| CoversAt(hub, bindings, ip, len) && Above(network, peers, bindings, hub, d, ip, len);
    forall q, l: nat | q in peers && Linked(s, q) && q != hub && CoversAt(q, bindings, ip, l)
      ensures l < len || (l == len && Later(peers, q, hub))
    {
      assert Member(network, peers, q) && q != d;
    }
    assert Beats(peers, bindings, s, hub, ip, len);
  }

  /** Any two members of a network with a hub reach each other. */
  lemma HubReachability(network: string, peers: seq<Peer>, bindings: seq<RouteBinding>, hub: Peer, s: Peer, d: Peer)
    requires HasHub(network, peers, bindings, hub)
    requires Member(network, peers, s) && Member(network, peers, d) && s != d
    ensures Mesh(s, peers, bindings).Ok? && Mesh(hub, peers, bindings).Ok? && Mesh(d, peers, bindings).Ok?
    ensures Delivers(Mesh(s, peers, bindings).value, Mesh(hub, peers, bindings).value,
        Mesh(d, peers, bindings).value, s, hub, d)
  {
    DeliveryExact(network, peers, bindings, hub, s, d);
    LinkedBothWays(s, d);
    if Linked(s, d) {
      HubExclusive(network, peers, bindings, hub, s, d);
      HubExclusive(network, peers, bindings, hub, d, s);
    } else {
      HubLinks(network, peers, hub, s, d);
      HubDominates(network, peers, bindings, hub, s, d);
      HubDominates(network, peers, bindings, hub, d, s);
      HubExclusive(network, peers, bindings, hub, hub, s);
      HubExclusive(network, peers, bindings, hub, hub, d);
    }
  }

  lemma MembersCompute(network: string, peers: seq<Peer>, bindings: seq<RouteBinding>, hub: Peer, q: Peer)
    requires HasHub(network, peers, bindings, hub) && Member(network, peers, q)
    ensures Computable(q, peers) && Member(network, peers, hub)
  {
  }
}
