/** pkg/controller/guardlet: prints a peer's status as arguments of `wg set`, and how those arguments read back. */
module Guardlet {
  import opened Common
  import opened Text
  import opened Api
  import PeerController
  import MeshFacts

  // ---- The printer ----

  function Rejoined(endpoint: string): string {
    match SplitHostPort(endpoint)
    case Ok(hp) => hp.host + ":" + hp.port
    case Err => ""
  }

  predicate Printable(c: PeerConfiguration) {
    c.publicKey != "" && (c.endpoint != "" ==> Splits(c.endpoint))
  }

  function PeerArgs(c: PeerConfiguration): seq<string> {
    ["peer", c.publicKey]
    + (if c.endpoint != "" then ["endpoint", Rejoined(c.endpoint)] else [])
    + (if c.allowedIPs != [] then ["allowed-ips", Join(c.allowedIPs, ',')] else [])
  }

  function PeersArgs(peers: seq<PeerConfiguration>): seq<string> {
    if peers == [] then [] else PeersArgs(peers[..|peers| - 1]) + PeerArgs(peers[|peers| - 1])
  }

  /** Fails when the peer's own endpoint does not split, or a listed peer has no key or an endpoint that does not. */
  function CfgArgs(iface: string, keyFile: string, p: Peer): Result<seq<string>> {
    match SplitHostPort(p.spec.endpoint)
    case Err => Err
    case Ok(hp) =>
      if exists c <- p.status.peers :: !Printable(c) then Err
      else Ok(["set", iface, "listen-port", hp.port, "private-key", keyFile] + PeersArgs(p.status.peers))
  }

  /** The arguments for one listed peer. */
  method BuildPeerCfg(c: PeerConfiguration) returns (r: Result<seq<string>>)
    ensures r.Err? <==> c.publicKey == "" || (c.endpoint != "" && SplitHostPort(c.endpoint).Err?)
    ensures r.Ok? ==>
              var args := r.value;
              var next := if c.endpoint != "" then 4 else 2;
              && |args| == next + (if c.allowedIPs != [] then 2 else 0)
              && args[0] == "peer" && args[1] == c.publicKey
              && (c.endpoint != "" ==>
                    var hp := SplitHostPort(c.endpoint).value;
                    args[2] == "endpoint" && args[3] == hp.host + ":" + hp.port)
              && (c.allowedIPs != [] ==> args[next] == "allowed-ips" && args[next + 1] == Join(c.allowedIPs, ','))
    ensures r == if Printable(c) then Ok(PeerArgs(c)) else Err
  {
    if c.publicKey == "" {
      return Err;
    }
    var peerCfg := ["peer", c.publicKey];
    if c.endpoint != "" {
      var remote := SplitHostPort(c.endpoint);
      if remote.Err? {
        return Err;
      }
      peerCfg := peerCfg + ["endpoint", remote.value.host + ":" + remote.value.port];
    }
    assert peerCfg == ["peer", c.publicKey] + if c.endpoint != "" then ["endpoint", Rejoined(c.endpoint)] else [];
    if |c.allowedIPs| == 0 {
      assert peerCfg == peerCfg + [];
      return Ok(peerCfg);
    }
    peerCfg := peerCfg + ["allowed-ips", Join(c.allowedIPs, ',')];
    return Ok(peerCfg);
  }

  method BuildCfgArgs(iface: string, keyFile: string, p: Peer) returns (r: Result<seq<string>>)
    ensures r.Err? <==>
              || SplitHostPort(p.spec.endpoint).Err?
              || exists c <- p.status.peers :: c.publicKey == "" || (c.endpoint != "" && SplitHostPort(c.endpoint).Err?)
    ensures r.Ok? ==>
              var port := SplitHostPort(p.spec.endpoint).value.port;
              ["set", iface, "listen-port", port, "private-key", keyFile] <= r.value
    ensures r == CfgArgs(iface, keyFile, p)
  {
    var args := ["set", iface];
    var own := SplitHostPort(p.spec.endpoint);
    if own.Err? {
      return Err;
    }
    args := args + ["listen-port", own.value.port, "private-key", keyFile];
    ghost var head := args;
    assert head == ["set", iface, "listen-port", own.value.port, "private-key", keyFile];
    var peers := p.status.peers;
    for i := 0 to |peers|
      invariant args == head + PeersArgs(peers[..i])
      invariant forall c <- peers[..i] :: Printable(c)
    {
      assert peers[..i + 1] == peers[..i] + [peers[i]] && peers[i] in peers;
      assert peers[..i + 1][..i] == peers[..i];
      var peerCfg := BuildPeerCfg(peers[i]);
      if peerCfg.Err? {
        return Err;
      }
      Assoc(head, PeersArgs(peers[..i]), peerCfg.value);
      args := args + peerCfg.value;
    }
    assert peers[..|peers|] == peers;
    return Ok(args);
  }

  // ---- The reader ----

  datatype WgPeer = WgPeer(publicKey: string, endpoint: string, allowedIPs: seq<string>)

  datatype WgConfig = WgConfig(iface: string, port: string, keyFile: string, peers: seq<WgPeer>)

  /** An optional keyword with its value, and what follows. */
  function ReadOptional(keyword: string, args: seq<string>): (r: (Option<string>, seq<string>))
    ensures |r.1| <= |args|
  {
    if |args| >= 2 && args[0] == keyword then (Some(args[1]), args[2..]) else (None, args)
  }

  /** Reads `peer KEY [endpoint E] [allowed-ips LIST]` repeatedly. A key is taken by position, whatever it spells; an
      endpoint cannot be empty. */
  function ReadPeers(args: seq<string>): Option<seq<WgPeer>>
    decreases |args|
  {
    if args == [] then Some([])
    else if |args| < 2 || args[0] != "peer" then None
    else
      var (endpoint, afterEndpoint) := ReadOptional("endpoint", args[2..]);
      var (allowedIPs, rest) := ReadOptional("allowed-ips", afterEndpoint);
      if endpoint == Some("") then None else
      match ReadPeers(rest)
      case Some(peers) => Some([WgPeer(args[1], endpoint.GetOr(""), DecodeList(allowedIPs.GetOr("")))] + peers)
      case None => None
  }

  function ReadArgs(args: seq<string>): Option<WgConfig> {
    if |args| >= 6 && args[0] == "set" && args[2] == "listen-port" && args[4] == "private-key" then
      match ReadPeers(args[6..])
      case Some(peers) => Some(WgConfig(args[1], args[3], args[5], peers))
      case None => None
    else None
  }

  // ---- Round trip ----

  /** A listed peer as the arguments convey it. */
  function Conveyed(c: PeerConfiguration): WgPeer {
    WgPeer(c.publicKey, Rejoined(c.endpoint), DecodeList(Join(c.allowedIPs, ',')))
  }

  /** A listed peer as meant. */
  function Meant(c: PeerConfiguration): WgPeer {
    WgPeer(c.publicKey, c.endpoint, c.allowedIPs)
  }

  function AllConveyed(peers: seq<PeerConfiguration>): seq<WgPeer> {
    seq(|peers|, i requires 0 <= i < |peers| => Conveyed(peers[i]))
  }

  function AllMeant(peers: seq<PeerConfiguration>): seq<WgPeer> {
    seq(|peers|, i requires 0 <= i < |peers| => Meant(peers[i]))
  }

  lemma PeersArgsSnoc(peers: seq<PeerConfiguration>, c: PeerConfiguration)
    ensures PeersArgs(peers + [c]) == PeersArgs(peers) + PeerArgs(c)
  {
    assert (peers + [c])[..|peers|] == peers;
  }

  lemma Assoc(a: seq<string>, b: seq<string>, c: seq<string>)
    ensures (a + b) + c == a + (b + c)
  {
  }

  lemma PeersArgsOne(c: PeerConfiguration, peers: seq<PeerConfiguration>)
    requires peers == []
    ensures PeersArgs([c] + peers) == PeerArgs(c) + PeersArgs(peers)
  {
    PeersArgsSnoc(peers, c);
    assert peers + [c] == [c] + peers;
    var none, one := PeersArgs(peers), PeerArgs(c);
    assert none == [];
    assert one + none == none + one;
  }

  lemma {:induction false} PeersArgsCons(c: PeerConfiguration, peers: seq<PeerConfiguration>)
    ensures PeersArgs([c] + peers) == PeerArgs(c) + PeersArgs(peers)
  {
    if peers == [] {
      PeersArgsOne(c, peers);
    } else {
      var init, last := peers[..|peers| - 1], peers[|peers| - 1];
      PeersArgsCons(c, init);
      PeersArgsSnoc([c] + init, last);
      PeersArgsSnoc(init, last);
      assert [c] + peers == ([c] + init) + [last];
      assert peers == init + [last];
      Assoc(PeerArgs(c), PeersArgs(init), PeerArgs(last));
    }
  }

  /** Anything that may follow a peer's arguments. */
  ghost predicate PeerBoundary(rest: seq<string>) {
    rest == [] || rest[0] == "peer"
  }

  function Optional(keyword: string, value: Option<string>): seq<string> {
    if value.Some? then [keyword, value.value] else []
  }

  lemma ReadWritten(keyword: string, value: Option<string>, rest: seq<string>)
    requires rest != [] ==> rest[0] != keyword
    ensures ReadOptional(keyword, Optional(keyword, value) + rest) == (value, rest)
  {
    if value.Some? {
      assert ([keyword, value.value] + rest)[2..] == rest;
    } else {
      assert [] + rest == rest;
    }
  }

  lemma ReadOne(c: PeerConfiguration, rest: seq<string>)
    requires Printable(c) && PeerBoundary(rest) && ReadPeers(rest).Some?
    ensures ReadPeers(PeerArgs(c) + rest) == Some([Conveyed(c)] + ReadPeers(rest).value)
  {
    var endpoint := if c.endpoint != "" then Some(Rejoined(c.endpoint)) else None;
    var ips := if c.allowedIPs != [] then Some(Join(c.allowedIPs, ',')) else None;
    Assoc3(["peer", c.publicKey], Optional("endpoint", endpoint), Optional("allowed-ips", ips), rest);
    ReadGroup(c.publicKey, endpoint, ips, rest);
  }

  lemma Assoc3(a: seq<string>, b: seq<string>, c: seq<string>, d: seq<string>)
    ensures a + b + c + d == a + (b + (c + d))
  {
  }

  lemma StartOf(keyword: string, value: Option<string>, rest: seq<string>)
    ensures var args := Optional(keyword, value) + rest;
            args != [] ==> args[0] == keyword || (rest != [] && args[0] == rest[0])
  {
  }

  lemma ReadGroup(key: string, endpoint: Option<string>, ips: Option<string>, rest: seq<string>)
    requires PeerBoundary(rest) && ReadPeers(rest).Some? && endpoint != Some("")
    ensures ReadPeers(["peer", key] + (Optional("endpoint", endpoint) + (Optional("allowed-ips", ips) + rest)))
            == Some([WgPeer(key, endpoint.GetOr(""), DecodeList(ips.GetOr("")))] + ReadPeers(rest).value)
  {
    var tail := Optional("allowed-ips", ips) + rest;
    var body := Optional("endpoint", endpoint) + tail;
    Keywords();
    StartOf("allowed-ips", ips, rest);
    ReadWritten("endpoint", endpoint, tail);
    ReadWritten("allowed-ips", ips, rest);
    var args := ["peer", key] + body;
    assert args[0] == "peer" && args[1] == key && args[2..] == body;
  }

  lemma Keywords()
    ensures "peer" != "endpoint" && "peer" != "allowed-ips" && "endpoint" != "allowed-ips"
  {
    assert |"peer"| == 4 && |"endpoint"| == 8 && |"allowed-ips"| == 11;
  }

  lemma {:induction false} ReadPrinted(peers: seq<PeerConfiguration>)
    requires forall c <- peers :: Printable(c)
    ensures PeerBoundary(PeersArgs(peers)) && ReadPeers(PeersArgs(peers)) == Some(AllConveyed(peers))
  {
    if peers != [] {
      var c, rest := peers[0], peers[1..];
      assert peers == [c] + rest;
      ReadPrinted(rest);
      PeersArgsCons(c, rest);
      ReadOne(c, PeersArgs(rest));
      assert AllConveyed(peers) == [Conveyed(c)] + AllConveyed(rest);
    }
  }

  /** Whatever is printed reads back: interface, port, key file, and every listed peer in order. */
  lemma PrintedReads(iface: string, keyFile: string, p: Peer)
    requires CfgArgs(iface, keyFile, p).Ok?
    ensures ReadArgs(CfgArgs(iface, keyFile, p).value) ==
            Some(WgConfig(iface, SplitHostPort(p.spec.endpoint).value.port, keyFile, AllConveyed(p.status.peers)))
  {
    var args := CfgArgs(iface, keyFile, p).value;
    assert args[6..] == PeersArgs(p.status.peers);
    ReadPrinted(p.status.peers);
  }

  /** No bracketed endpoint and every list printable. */
  predicate Faithful(peers: seq<PeerConfiguration>) {
    forall c <- peers :: !Bracketed(c.endpoint) && ListPrintable(c.allowedIPs)
  }

  lemma ConveyedExact(c: PeerConfiguration)
    requires Printable(c)
    ensures Conveyed(c) == Meant(c) <==> !Bracketed(c.endpoint) && ListPrintable(c.allowedIPs)
  {
    DecodeListExact(c.allowedIPs);
    if c.endpoint != "" {
      RejoinExact(c.endpoint);
    }
  }

  lemma AllConveyedExact(peers: seq<PeerConfiguration>)
    requires forall c <- peers :: Printable(c)
    ensures AllConveyed(peers) == AllMeant(peers) <==> Faithful(peers)
  {
    forall i | 0 <= i < |peers|
      ensures AllConveyed(peers)[i] == AllMeant(peers)[i] <==>
          !Bracketed(peers[i].endpoint) && ListPrintable(peers[i].allowedIPs)
    {
      assert peers[i] in peers;
      ConveyedExact(peers[i]);
    }
  }

  /** Reading back recovers the peers as meant exactly when no endpoint is bracketed, no allowed address holds a
      comma, and no list is a lone empty entry. */
  lemma RoundTripExact(iface: string, keyFile: string, p: Peer)
    requires CfgArgs(iface, keyFile, p).Ok?
    ensures ReadArgs(CfgArgs(iface, keyFile, p).value) ==
            Some(WgConfig(iface, SplitHostPort(p.spec.endpoint).value.port, keyFile, AllMeant(p.status.peers)))
            <==> Faithful(p.status.peers)
  {
    PrintedReads(iface, keyFile, p);
    AllConveyedExact(p.status.peers);
  }

  /** Faithful statuses that print alike list the same keys, endpoints and addresses; only names can differ. */
  lemma PrinterInjective(iface: string, keyFile: string, p: Peer, iface': string, keyFile': string, q: Peer)
    requires CfgArgs(iface, keyFile, p).Ok? && CfgArgs(iface, keyFile, p) == CfgArgs(iface', keyFile', q)
    requires Faithful(p.status.peers) && Faithful(q.status.peers)
    ensures iface == iface' && keyFile == keyFile'
    ensures SplitHostPort(p.spec.endpoint).value.port == SplitHostPort(q.spec.endpoint).value.port
    ensures AllMeant(p.status.peers) == AllMeant(q.status.peers)
  {
    RoundTripExact(iface, keyFile, p);
    RoundTripExact(iface', keyFile', q);
  }

  /** A status computed by the peer controller prints unless the peer's own endpoint no longer splits or a listed peer
      has no key; the endpoints it lists always split. */
  lemma ComputedPrints(iface: string, keyFile: string, p: Peer, self: Peer, peers: seq<Peer>,
                       bindings: seq<RouteBinding>)
    requires PeerController.Mesh(self, peers, bindings) == Ok(p.status.peers)
    ensures forall c <- p.status.peers :: c.endpoint != "" ==> Splits(c.endpoint)
    ensures CfgArgs(iface, keyFile, p).Err? <==>
              !Splits(p.spec.endpoint) || exists c <- p.status.peers :: c.publicKey == ""
  {
    forall c | c in p.status.peers && c.endpoint != "" ensures Splits(c.endpoint) {
      var q := MeshFacts.EntrySource(self, peers, bindings, c);
    }
  }

  // ---- The local address ----

  /** The part of an address before the first slash. */
  function BeforeSlash(status: string): string {
    if Index(status, '/') == -1 then status else status[..Index(status, '/')]
  }

  /** The address with a mask, 32 if it had none. */
  function Masked(status: string): string {
    if '/' in status then status else status + "/32"
  }

  /** The address and the masked address that the interface and its routes are configured with. */
  method LocalAddress(status: string) returns (ip: string, ipMask: string)
    ensures ip == BeforeSlash(status) && ipMask == Masked(status)
    ensures '/' !in ip && ip + "/" <= ipMask
    ensures if '/' in status then ipMask == status else ip == status && ipMask == status + "/32"
  {
    ipMask := status;
    var idx := Index(ipMask, '/');
    if idx == -1 {
      ip := ipMask;
      ipMask := ipMask + "/32";
    } else {
      ip := ipMask[..idx];
      assert status[..idx + 1] == ip + "/";
    }
  }

  /** The two controllers read the same host out of an address unless its first slash is its last character. */
  lemma HostsAgreeExact(status: string)
    ensures BeforeSlash(status) == PeerController.SplitNetMask(status).0 <==>
              Index(status, '/') == -1 || Index(status, '/') != |status| - 1
  {
  }
}
