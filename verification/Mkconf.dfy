/** cmd/mkconf: prints a peer's status as a wg-quick file, and how such a file reads back. */
module Mkconf {
  import opened Common
  import opened Text
  import opened Api
  import opened Guardlet
  import MeshFacts
  import PeerController

  datatype PeerData = PeerData(publicKey: string, allowedIPs: string, endpoint: string)

  datatype TemplateData = TemplateData(address: string, listenPort: string, privateKey: string, peers: seq<PeerData>)

  // ---- The template ----

  function RenderPeer(d: PeerData): string {
    "\n[Peer]\nPublicKey = " + d.publicKey + "\nAllowedIPs = " + d.allowedIPs + "\n"
    + (if d.endpoint != "" then "Endpoint = " + d.endpoint + "\n" else "")
    + "PersistentKeepalive = 15\n"
  }

  function RenderPeers(peers: seq<PeerData>): string {
    if peers == [] then "" else RenderPeer(peers[0]) + RenderPeers(peers[1..])
  }

  function Render(t: TemplateData): string {
    "[Interface]\nAddress = " + t.address + "\nListenPort = " + t.listenPort + "\nPrivateKey = " + t.privateKey + "\n\n"
    + RenderPeers(t.peers)
    + "\n"
  }

  function DataOf(c: PeerConfiguration): PeerData {
    PeerData(c.publicKey, Join(c.allowedIPs, ','), c.endpoint)
  }

  function AllData(peers: seq<PeerConfiguration>): seq<PeerData> {
    seq(|peers|, i requires 0 <= i < |peers| => DataOf(peers[i]))
  }

  /** The file for a peer; the mask 32 is always appended to its own address. */
  function ConfText(privateKey: string, p: Peer): Result<string> {
    match SplitHostPort(p.spec.endpoint)
    case Err => Err
    case Ok(hp) => Ok(Render(TemplateData(p.status.address + "/32", hp.port, privateKey, AllData(p.status.peers))))
  }

  method GenerateConf(privateKey: string, p: Peer) returns (text: Result<string>)
    ensures text.Err? <==> SplitHostPort(p.spec.endpoint).Err?
    ensures text == ConfText(privateKey, p)
  {
    var own := SplitHostPort(p.spec.endpoint);
    if own.Err? {
      return Err;
    }
    var peers: seq<PeerData> := [];
    for i := 0 to |p.status.peers|
      invariant peers == AllData(p.status.peers[..i])
    {
      var peer := p.status.peers[i];
      peers := peers + [PeerData(peer.publicKey, Join(peer.allowedIPs, ','), peer.endpoint)];
    }
    assert p.status.peers[..|p.status.peers|] == p.status.peers;
    return Ok(Render(TemplateData(p.status.address + "/32", own.value.port, privateKey, peers)));
  }

  // ---- The reader ----

  /** What has been read so far; `peers` grows at each `[Peer]` line and its last element is being filled in. */
  datatype Reading = Reading(address: string, port: string, privateKey: string, peers: seq<WgPeer>)

  function After(key: string, line: string): Option<string> {
    if key <= line then Some(line[|key|..]) else None
  }

  function ReadLine(r: Reading, line: string): Option<Reading> {
    if line == "" || line == "[Interface]" then Some(r)
    else if line == "[Peer]" then Some(r.(peers := r.peers + [WgPeer("", "", [])]))
    else if After("Address = ", line).Some? then Some(r.(address := After("Address = ", line).value))
    else if After("ListenPort = ", line).Some? then Some(r.(port := After("ListenPort = ", line).value))
    else if After("PrivateKey = ", line).Some? then Some(r.(privateKey := After("PrivateKey = ", line).value))
    else if |r.peers| == 0 then None
    else
      var k := |r.peers| - 1;
      var last := r.peers[k];
      if After("PublicKey = ", line).Some? then
        Some(r.(peers := r.peers[k := last.(publicKey := After("PublicKey = ", line).value)]))
      else if After("AllowedIPs = ", line).Some? then
        Some(r.(peers := r.peers[k := last.(allowedIPs := DecodeList(After("AllowedIPs = ", line).value))]))
      else if After("Endpoint = ", line).Some? then
        Some(r.(peers := r.peers[k := last.(endpoint := After("Endpoint = ", line).value)]))
      else if After("PersistentKeepalive = ", line).Some? then Some(r)
      else None
  }

  function ReadLines(r: Reading, lines: seq<string>): Option<Reading>
    decreases |lines|
  {
    if lines == [] then Some(r)
    else
      match ReadLine(r, lines[0])
      case None => None
      case Some(next) => ReadLines(next, lines[1..])
  }

  /** The lines of a text, without their newlines. */
  function Lines(s: string): (lines: seq<string>)
    ensures Free(lines, '\n')
    decreases |s|
  {
    var i := Index(s, '\n');
    if i >= 0 then [s[..i]] + Lines(s[i + 1..])
    else if s == "" then []
    else [s]
  }

  function ReadConf(text: string): Option<Reading> {
    ReadLines(Reading("", "", "", []), Lines(text))
  }

  // ---- Text and lines ----

  function Unlines(lines: seq<string>): string {
    if lines == [] then "" else lines[0] + "\n" + Unlines(lines[1..])
  }

  lemma {:induction false} UnlinesAppend(xs: seq<string>, ys: seq<string>)
    ensures Unlines(xs + ys) == Unlines(xs) + Unlines(ys)
  {
    if xs == [] {
      assert xs + ys == ys;
    } else {
      assert (xs + ys)[1..] == xs[1..] + ys;
      UnlinesAppend(xs[1..], ys);
    }
  }

  lemma {:induction false} LinesUnlines(lines: seq<string>)
    requires Free(lines, '\n')
    ensures Lines(Unlines(lines)) == lines
  {
    if lines != [] {
      var l, rest := lines[0], Unlines(lines[1..]);
      assert Unlines(lines) == l + ['\n'] + rest;
      IndexUnique(l, '\n', rest);
      assert Unlines(lines)[..|l|] == l && Unlines(lines)[|l| + 1..] == rest;
      LinesUnlines(lines[1..]);
    }
  }

  function DialLines(d: PeerData): seq<string> {
    if d.endpoint != "" then ["Endpoint = " + d.endpoint] else []
  }

  function PeerLines(d: PeerData): seq<string> {
    ["", "[Peer]", "PublicKey = " + d.publicKey, "AllowedIPs = " + d.allowedIPs]
    + DialLines(d)
    + ["PersistentKeepalive = 15"]
  }

  function PeersLines(peers: seq<PeerData>): seq<string> {
    if peers == [] then [] else PeerLines(peers[0]) + PeersLines(peers[1..])
  }

  function HeadLines(t: TemplateData): seq<string> {
    ["[Interface]", "Address = " + t.address, "ListenPort = " + t.listenPort, "PrivateKey = " + t.privateKey, ""]
  }

  lemma Unlines1(a: string)
    ensures Unlines([a]) == a + "\n"
  {
    assert [a][1..] == [];
  }

  lemma UnlinesCons(a: string, rest: seq<string>)
    ensures Unlines([a] + rest) == a + "\n" + Unlines(rest)
  {
    assert ([a] + rest)[1..] == rest;
  }

  lemma Reassociate(nl: string, header: string, keyLabel: string, key: string, ipsLabel: string, ips: string,
                    tail: string)
    ensures nl + header + nl + keyLabel + key + (nl + ipsLabel) + ips + nl + tail
            == nl + (header + nl + (keyLabel + key + nl + (ipsLabel + ips + nl + tail)))
  {
  }

  lemma PeerText(d: PeerData)
    ensures RenderPeer(d) == Unlines(PeerLines(d))
  {
    var tail := ["PersistentKeepalive = 15"];
    var dial := DialLines(d);
    var key, ips := "PublicKey = " + d.publicKey, "AllowedIPs = " + d.allowedIPs;
    PeerTail(d);
    PeerLinesText(key, ips, dial + tail);
    assert PeerLines(d) == ["", "[Peer]", key, ips] + (dial + tail);
    PeerHeadText();
    Reassociate("\n", "[Peer]", "PublicKey = ", d.publicKey, "AllowedIPs = ", d.allowedIPs, Unlines(dial + tail));
  }

  lemma PeerHeadText()
    ensures "\n[Peer]\nPublicKey = " == "\n" + "[Peer]" + "\n" + "PublicKey = "
    ensures "\nAllowedIPs = " == "\n" + "AllowedIPs = "
  {
  }

  lemma PeerLinesText(key: string, ips: string, rest: seq<string>)
    ensures Unlines(["", "[Peer]", key, ips] + rest) ==
        "\n" + ("[Peer]" + "\n" + (key + "\n" + (ips + "\n" + Unlines(rest))))
  {
    var three := [ips] + rest;
    var two := [key] + three;
    var one := ["[Peer]"] + two;
    assert ["", "[Peer]", key, ips] + rest == [""] + one;
    UnlinesCons("", one);
    UnlinesCons("[Peer]", two);
    UnlinesCons(key, three);
    UnlinesCons(ips, rest);
  }

  lemma PeerTail(d: PeerData)
    ensures var dial := DialLines(d);
            Unlines(dial + ["PersistentKeepalive = 15"])
            == (if d.endpoint != "" then "Endpoint = " + d.endpoint + "\n" else "") + "PersistentKeepalive = 15\n"
  {
    Unlines1("PersistentKeepalive = 15");
    assert "PersistentKeepalive = 15\n" == "PersistentKeepalive = 15" + "\n";
    UnlinesCons("Endpoint = " + d.endpoint, ["PersistentKeepalive = 15"]);
  }

  lemma {:induction false} PeersText(peers: seq<PeerData>)
    ensures RenderPeers(peers) == Unlines(PeersLines(peers))
  {
    if peers != [] {
      PeerText(peers[0]);
      PeersText(peers[1..]);
      UnlinesAppend(PeerLines(peers[0]), PeersLines(peers[1..]));
    }
  }

  lemma HeadLiterals()
    ensures "[Interface]\nAddress = " == "[Interface]" + "\n" + "Address = "
    ensures "\nListenPort = " == "\n" + "ListenPort = "
    ensures "\nPrivateKey = " == "\n" + "PrivateKey = "
    ensures "\n\n" == "\n" + ("" + "\n")
  {
  }

  lemma ReassociateHead(nl: string, header: string, l1: string, v1: string, l2: string, v2: string, l3: string,
                        v3: string, tail: string)
    ensures header + nl + l1 + v1 + (nl + l2) + v2 + (nl + l3) + v3 + (nl + ("" + nl)) + tail
            == header + nl + (l1 + v1 + nl + (l2 + v2 + nl + (l3 + v3 + nl + ("" + nl + tail))))
  {
  }

  lemma HeadLinesText(a: string, p: string, k: string, rest: seq<string>)
    ensures Unlines(["[Interface]", a, p, k, ""] + rest)
            == "[Interface]" + "\n" + (a + "\n" + (p + "\n" + (k + "\n" + ("" + "\n" + Unlines(rest)))))
  {
    var four := [""] + rest;
    var three := [k] + four;
    var two := [p] + three;
    var one := [a] + two;
    assert ["[Interface]", a, p, k, ""] + rest == ["[Interface]"] + one;
    UnlinesCons("[Interface]", one);
    UnlinesCons(a, two);
    UnlinesCons(p, three);
    UnlinesCons(k, four);
    UnlinesCons("", rest);
  }

  function FileLines(t: TemplateData): seq<string> {
    HeadLines(t) + (PeersLines(t.peers) + [""])
  }

  /** The template's text is a sequence of whole lines. */
  lemma TextIsLines(t: TemplateData)
    ensures Render(t) == Unlines(FileLines(t))
  {
    var rest := PeersLines(t.peers) + [""];
    PeersText(t.peers);
    UnlinesAppend(PeersLines(t.peers), [""]);
    Unlines1("");
    HeadLinesText("Address = " + t.address, "ListenPort = " + t.listenPort, "PrivateKey = " + t.privateKey, rest);
    HeadLiterals();
    assert Unlines(rest) == RenderPeers(t.peers) + "\n";
    ReassociateHead("\n", "[Interface]", "Address = ", t.address, "ListenPort = ", t.listenPort,
                    "PrivateKey = ", t.privateKey, RenderPeers(t.peers) + "\n");
  }

  // ---- Reading the lines ----

  lemma {:induction false} ReadLinesAppend(r: Reading, xs: seq<string>, ys: seq<string>)
    requires ReadLines(r, xs).Some?
    ensures ReadLines(r, xs + ys) == ReadLines(ReadLines(r, xs).value, ys)
    decreases |xs|
  {
    if xs == [] {
      assert xs + ys == ys;
    } else {
      assert (xs + ys)[1..] == xs[1..] + ys;
      ReadLinesAppend(ReadLine(r, xs[0]).value, xs[1..], ys);
    }
  }

  lemma ReadLinesCons(r: Reading, line: string, rest: seq<string>)
    requires ReadLine(r, line).Some?
    ensures ReadLines(r, [line] + rest) == ReadLines(ReadLine(r, line).value, rest)
  {
    assert ([line] + rest)[1..] == rest;
  }

  lemma AfterKey(key: string, value: string)
    ensures After(key, key + value) == Some(value)
  {
  }

  /** Texts that differ at some place are no prefixes of each other. */
  lemma NotAfter(key: string, line: string, i: nat)
    requires i < |key| && i < |line| && key[i] != line[i]
    ensures After(key, line) == None
  {
  }

  lemma ReadAddress(r: Reading, v: string)
    ensures ReadLine(r, "Address = " + v) == Some(r.(address := v))
  {
    assert ("Address = " + v)[0] == 'A';
    AfterKey("Address = ", v);
  }

  lemma ReadPort(r: Reading, v: string)
    ensures ReadLine(r, "ListenPort = " + v) == Some(r.(port := v))
  {
    var line := "ListenPort = " + v;
    assert line[0] == 'L';
    NotAfter("Address = ", line, 0);
    AfterKey("ListenPort = ", v);
  }

  lemma ReadPrivateKey(r: Reading, v: string)
    ensures ReadLine(r, "PrivateKey = " + v) == Some(r.(privateKey := v))
  {
    var line := "PrivateKey = " + v;
    assert line[0] == 'P';
    NotAfter("Address = ", line, 0);
    NotAfter("ListenPort = ", line, 0);
    AfterKey("PrivateKey = ", v);
  }

  lemma ReadPublicKey(r: Reading, v: string)
    requires r.peers != []
    ensures var k := |r.peers| - 1;
            ReadLine(r, "PublicKey = " + v) == Some(r.(peers := r.peers[k := r.peers[k].(publicKey := v)]))
  {
    var line := "PublicKey = " + v;
    assert line[0] == 'P' && line[1] == 'u';
    NotAfter("Address = ", line, 0);
    NotAfter("ListenPort = ", line, 0);
    NotAfter("PrivateKey = ", line, 1);
    AfterKey("PublicKey = ", v);
  }

  lemma ReadAllowed(r: Reading, v: string)
    requires r.peers != []
    ensures var k := |r.peers| - 1;
            ReadLine(r, "AllowedIPs = " + v) ==
              Some(r.(peers := r.peers[k := r.peers[k].(allowedIPs := DecodeList(v))]))
  {
    var line := "AllowedIPs = " + v;
    assert line[0] == 'A' && line[1] == 'l';
    NotAfter("Address = ", line, 1);
    NotAfter("ListenPort = ", line, 0);
    NotAfter("PrivateKey = ", line, 0);
    NotAfter("PublicKey = ", line, 0);
    AfterKey("AllowedIPs = ", v);
  }

  lemma ReadEndpoint(r: Reading, v: string)
    requires r.peers != []
    ensures var k := |r.peers| - 1;
            ReadLine(r, "Endpoint = " + v) == Some(r.(peers := r.peers[k := r.peers[k].(endpoint := v)]))
  {
    var line := "Endpoint = " + v;
    assert line[0] == 'E';
    NotAfter("Address = ", line, 0);
    NotAfter("ListenPort = ", line, 0);
    NotAfter("PrivateKey = ", line, 0);
    NotAfter("PublicKey = ", line, 0);
    NotAfter("AllowedIPs = ", line, 0);
    AfterKey("Endpoint = ", v);
  }

  lemma ReadKeepalive(r: Reading)
    requires r.peers != []
    ensures ReadLine(r, "PersistentKeepalive = 15") == Some(r)
  {
    var line := "PersistentKeepalive = 15";
    assert line[0] == 'P' && line[1] == 'e';
    NotAfter("Address = ", line, 0);
    NotAfter("ListenPort = ", line, 0);
    NotAfter("PrivateKey = ", line, 1);
    NotAfter("PublicKey = ", line, 1);
    NotAfter("AllowedIPs = ", line, 0);
    NotAfter("Endpoint = ", line, 0);
    assert line == "PersistentKeepalive = " + "15";
    AfterKey("PersistentKeepalive = ", "15");
  }

  /** A peer as its section conveys it. */
  function Shown(d: PeerData): WgPeer {
    WgPeer(d.publicKey, d.endpoint, DecodeList(d.allowedIPs))
  }

  lemma ReadLast(r: Reading)
    requires r.peers != []
    ensures ReadLines(r, ["PersistentKeepalive = 15"]) == Some(r)
  {
    ReadKeepalive(r);
    ReadLinesCons(r, "PersistentKeepalive = 15", []);
    assert ["PersistentKeepalive = 15"] + [] == ["PersistentKeepalive = 15"];
  }

  lemma ReplaceLast(peers: seq<WgPeer>, p: WgPeer)
    requires peers != []
    ensures peers[|peers| - 1 := p] == peers[..|peers| - 1] + [p]
  {
  }

  lemma ReadEndpointLine(r: Reading, v: string, rest: seq<string>)
    requires r.peers != []
    ensures var k := |r.peers| - 1;
            ReadLines(r, ["Endpoint = " + v] + rest)
            == ReadLines(r.(peers := r.peers[..k] + [r.peers[k].(endpoint := v)]), rest)
  {
    var k := |r.peers| - 1;
    ReadEndpoint(r, v);
    ReplaceLast(r.peers, r.peers[k].(endpoint := v));
    ReadLinesCons(r, "Endpoint = " + v, rest);
  }

  /** A section whose key and addresses have been read is completed by the endpoint, if there is one. */
  lemma ReadDial(r: Reading, d: PeerData)
    requires r.peers != [] && r.peers[|r.peers| - 1] == WgPeer(d.publicKey, "", DecodeList(d.allowedIPs))
    ensures ReadLines(r, DialLines(d) + ["PersistentKeepalive = 15"]) ==
        Some(r.(peers := r.peers[..|r.peers| - 1] + [Shown(d)]))
  {
    var tail := ["PersistentKeepalive = 15"];
    var s := r.(peers := r.peers[..|r.peers| - 1] + [Shown(d)]);
    ReadLast(s);
    if d.endpoint != "" {
      ReadEndpointLine(r, d.endpoint, tail);
    } else {
      ReplaceLast(r.peers, Shown(d));
      assert r == s;
      assert DialLines(d) + tail == tail;
    }
  }

  lemma ReadFields(r: Reading, d: PeerData, rest: seq<string>)
    ensures ReadLines(r.(peers := r.peers + [WgPeer("", "", [])]),
        ["PublicKey = " + d.publicKey, "AllowedIPs = " + d.allowedIPs] + rest)
            == ReadLines(r.(peers := r.peers + [WgPeer(d.publicKey, "", DecodeList(d.allowedIPs))]), rest)
  {
    var key, ips := "PublicKey = " + d.publicKey, "AllowedIPs = " + d.allowedIPs;
    var r1 := r.(peers := r.peers + [WgPeer("", "", [])]);
    var r2 := r.(peers := r.peers + [WgPeer(d.publicKey, "", [])]);
    var r3 := r.(peers := r.peers + [WgPeer(d.publicKey, "", DecodeList(d.allowedIPs))]);
    assert [key, ips] + rest == [key] + ([ips] + rest);
    ReadPublicKey(r1, d.publicKey);
    assert r1.peers[|r.peers| := WgPeer(d.publicKey, "", [])] == r2.peers;
    ReadLinesCons(r1, key, [ips] + rest);
    ReadAllowed(r2, d.allowedIPs);
    assert r2.peers[|r.peers| := WgPeer(d.publicKey, "", DecodeList(d.allowedIPs))] == r3.peers;
    ReadLinesCons(r2, ips, rest);
  }

  lemma ReadSectionHead(r: Reading, rest: seq<string>)
    ensures ReadLines(r, ["", "[Peer]"] + rest) == ReadLines(r.(peers := r.peers + [WgPeer("", "", [])]), rest)
  {
    assert ["", "[Peer]"] + rest == [""] + (["[Peer]"] + rest);
    ReadLinesCons(r, "", ["[Peer]"] + rest);
    ReadLinesCons(r, "[Peer]", rest);
  }

  lemma ReadSection(r: Reading, d: PeerData)
    ensures ReadLines(r, PeerLines(d)) == Some(r.(peers := r.peers + [Shown(d)]))
  {
    var dial := DialLines(d);
    var rest := dial + ["PersistentKeepalive = 15"];
    var fields := ["PublicKey = " + d.publicKey, "AllowedIPs = " + d.allowedIPs];
    assert PeerLines(d) == ["", "[Peer]"] + (fields + rest);
    ReadSectionHead(r, fields + rest);
    ReadFields(r, d, rest);
    var filled := r.(peers := r.peers + [WgPeer(d.publicKey, "", DecodeList(d.allowedIPs))]);
    ReadDial(filled, d);
    assert filled.peers[..|filled.peers| - 1] == r.peers;
  }

  function AllShown(peers: seq<PeerData>): seq<WgPeer> {
    seq(|peers|, i requires 0 <= i < |peers| => Shown(peers[i]))
  }

  lemma {:induction false} ReadSections(r: Reading, peers: seq<PeerData>)
    ensures ReadLines(r, PeersLines(peers)) == Some(r.(peers := r.peers + AllShown(peers)))
    decreases |peers|
  {
    if peers == [] {
      assert r.peers + AllShown(peers) == r.peers;
    } else {
      var d, rest := peers[0], peers[1..];
      var s := r.(peers := r.peers + [Shown(d)]);
      ReadSection(r, d);
      ReadLinesAppend(r, PeerLines(d), PeersLines(rest));
      ReadSections(s, rest);
      assert r.peers + AllShown(peers) == s.peers + AllShown(rest);
    }
  }

  lemma ReadHead(r: Reading, t: TemplateData, rest: seq<string>)
    ensures ReadLines(r, HeadLines(t) + rest) ==
        ReadLines(Reading(t.address, t.listenPort, t.privateKey, r.peers), rest)
  {
    var a, p, k := "Address = " + t.address, "ListenPort = " + t.listenPort, "PrivateKey = " + t.privateKey;
    var four := [""] + rest;
    var three := [k] + four;
    var two := [p] + three;
    var one := [a] + two;
    assert HeadLines(t) + rest == ["[Interface]"] + one;
    ReadLinesCons(r, "[Interface]", one);
    ReadAddress(r, t.address);
    ReadLinesCons(r, a, two);
    var r1 := r.(address := t.address);
    ReadPort(r1, t.listenPort);
    ReadLinesCons(r1, p, three);
    var r2 := r1.(port := t.listenPort);
    ReadPrivateKey(r2, t.privateKey);
    ReadLinesCons(r2, k, four);
    ReadLinesCons(r2.(privateKey := t.privateKey), "", rest);
  }

  lemma ReadFile(t: TemplateData)
    ensures ReadLines(Reading("", "", "", []), FileLines(t))
            == Some(Reading(t.address, t.listenPort, t.privateKey, AllShown(t.peers)))
  {
    var r := Reading("", "", "", []);
    var s := Reading(t.address, t.listenPort, t.privateKey, []);
    ReadHead(r, t, PeersLines(t.peers) + [""]);
    ReadSections(s, t.peers);
    ReadLinesAppend(s, PeersLines(t.peers), [""]);
    var u := s.(peers := AllShown(t.peers));
    assert [] + AllShown(t.peers) == AllShown(t.peers);
    ReadLinesCons(u, "", []);
    assert [""] == [""] + [];
  }

  // ---- Round trip ----

  predicate OneLine(s: string) {
    '\n' !in s
  }

  /** No field holds a newline. */
  predicate OneLined(t: TemplateData) {
    && OneLine(t.address) && OneLine(t.listenPort) && OneLine(t.privateKey)
    && forall d <- t.peers :: OneLine(d.publicKey) && OneLine(d.allowedIPs) && OneLine(d.endpoint)
  }

  lemma PeerLinesFree(d: PeerData)
    requires OneLine(d.publicKey) && OneLine(d.allowedIPs) && OneLine(d.endpoint)
    ensures Free(PeerLines(d), '\n')
  {
  }

  lemma {:induction false} PeersLinesFree(peers: seq<PeerData>)
    requires forall d <- peers :: OneLine(d.publicKey) && OneLine(d.allowedIPs) && OneLine(d.endpoint)
    ensures Free(PeersLines(peers), '\n')
  {
    if peers != [] {
      assert peers[0] in peers;
      PeerLinesFree(peers[0]);
      PeersLinesFree(peers[1..]);
    }
  }

  lemma RenderedReads(t: TemplateData)
    requires OneLined(t)
    ensures ReadConf(Render(t)) == Some(Reading(t.address, t.listenPort, t.privateKey, AllShown(t.peers)))
  {
    TextIsLines(t);
    PeersLinesFree(t.peers);
    assert Free(HeadLines(t), '\n');
    assert Free(FileLines(t), '\n');
    LinesUnlines(FileLines(t));
    ReadFile(t);
  }

  // ---- What can be read at all holds no newline ----

  predicate PeerRead(p: WgPeer) {
    OneLine(p.publicKey) && OneLine(p.endpoint) && Free(p.allowedIPs, '\n')
  }

  predicate AllRead(r: Reading) {
    OneLine(r.address) && OneLine(r.port) && OneLine(r.privateKey) && forall p <- r.peers :: PeerRead(p)
  }

  lemma DecodeListOneLine(s: string)
    ensures Free(DecodeList(s), '\n') <==> OneLine(s)
  {
    SplitChars(s, ',', '\n');
  }

  lemma AfterOneLine(key: string, line: string)
    requires OneLine(line) && After(key, line).Some?
    ensures OneLine(After(key, line).value)
    ensures Free(DecodeList(After(key, line).value), '\n')
  {
    DecodeListOneLine(After(key, line).value);
  }

  lemma FieldOneLine(r: Reading, line: string, key: string)
    requires AllRead(r) && OneLine(line) && After(key, line).Some?
    ensures var v := After(key, line).value;
            && AllRead(r.(address := v)) && AllRead(r.(port := v)) && AllRead(r.(privateKey := v))
            && (r.peers != [] ==>
                  var k := |r.peers| - 1;
                  && AllRead(r.(peers := r.peers[k := r.peers[k].(publicKey := v)]))
                  && AllRead(r.(peers := r.peers[k := r.peers[k].(allowedIPs := DecodeList(v))]))
                  && AllRead(r.(peers := r.peers[k := r.peers[k].(endpoint := v)])))
  {
    var v := After(key, line).value;
    AfterOneLine(key, line);
    if r.peers != [] {
      var last := r.peers[|r.peers| - 1];
      assert last in r.peers && PeerRead(last);
      ReplacedRead(r, last.(publicKey := v));
      ReplacedRead(r, last.(allowedIPs := DecodeList(v)));
      ReplacedRead(r, last.(endpoint := v));
    }
  }

  lemma ReplacedRead(r: Reading, p: WgPeer)
    requires AllRead(r) && PeerRead(p) && r.peers != []
    ensures AllRead(r.(peers := r.peers[|r.peers| - 1 := p]))
  {
    forall q | q in r.peers[|r.peers| - 1 := p] ensures PeerRead(q) {
      assert q == p || q in r.peers;
    }
  }

  lemma ReadLineOneLine(r: Reading, line: string)
    requires AllRead(r) && OneLine(line) && ReadLine(r, line).Some?
    ensures AllRead(ReadLine(r, line).value)
  {
    forall key: string | After(key, line).Some? {
      FieldOneLine(r, line, key);
    }
    assert PeerRead(WgPeer("", "", []));
  }

  lemma {:induction false} ReadLinesOneLine(r: Reading, lines: seq<string>)
    requires AllRead(r) && Free(lines, '\n') && ReadLines(r, lines).Some?
    ensures AllRead(ReadLines(r, lines).value)
    decreases |lines|
  {
    if lines != [] {
      assert lines[0] in lines;
      ReadLineOneLine(r, lines[0]);
      ReadLinesOneLine(ReadLine(r, lines[0]).value, lines[1..]);
    }
  }

  lemma ReadConfOneLine(text: string)
    requires ReadConf(text).Some?
    ensures AllRead(ReadConf(text).value)
  {
    ReadLinesOneLine(Reading("", "", "", []), Lines(text));
  }

  lemma ShownOneLine(peers: seq<PeerData>)
    requires forall p <- AllShown(peers) :: PeerRead(p)
    ensures forall d <- peers :: OneLine(d.publicKey) && OneLine(d.allowedIPs) && OneLine(d.endpoint)
  {
    forall d | d in peers ensures OneLine(d.publicKey) && OneLine(d.allowedIPs) && OneLine(d.endpoint) {
      var i :| 0 <= i < |peers| && peers[i] == d;
      assert AllShown(peers)[i] == Shown(d) && PeerRead(Shown(d));
      DecodeListOneLine(d.allowedIPs);
    }
  }

  /** A rendered file reads back to what was filled in exactly when no field holds a newline. */
  lemma RenderedReadsExact(t: TemplateData)
    ensures ReadConf(Render(t)) == Some(Reading(t.address, t.listenPort, t.privateKey, AllShown(t.peers))) <==>
        OneLined(t)
  {
    if OneLined(t) {
      RenderedReads(t);
    }
    if ReadConf(Render(t)) == Some(Reading(t.address, t.listenPort, t.privateKey, AllShown(t.peers))) {
      ReadConfOneLine(Render(t));
      ShownOneLine(t.peers);
    }
  }

  /** No text that the file shows holds a newline. */
  predicate PeerOneLined(privateKey: string, p: Peer) {
    && OneLine(privateKey) && OneLine(p.status.address)
    && (Splits(p.spec.endpoint) ==> OneLine(SplitHostPort(p.spec.endpoint).value.port))
    && forall c <- p.status.peers :: OneLine(c.publicKey) && OneLine(c.endpoint) && Free(c.allowedIPs, '\n')
  }

  lemma DataOneLine(peers: seq<PeerConfiguration>)
    ensures (forall d <- AllData(peers) :: OneLine(d.publicKey) && OneLine(d.allowedIPs) && OneLine(d.endpoint))
            <==> (forall c <- peers :: OneLine(c.publicKey) && OneLine(c.endpoint) && Free(c.allowedIPs, '\n'))
  {
    forall i | 0 <= i < |peers| ensures OneLine(AllData(peers)[i].allowedIPs) <==> Free(peers[i].allowedIPs, '\n') {
      JoinChars(peers[i].allowedIPs, ',', '\n');
    }
    assert forall i :: 0 <= i < |peers| ==> AllData(peers)[i] in AllData(peers) && peers[i] in peers;
  }

  lemma AddressOneLine(address: string)
    ensures OneLine(address + "/32") <==> OneLine(address)
  {
    assert '\n' !in "/32";
  }

  /** The file for a peer reads back to its port, its masked address, the private key, and every listed peer in order,
      exactly when none of these holds a newline. */
  lemma ConfReads(privateKey: string, p: Peer)
    requires ConfText(privateKey, p).Ok?
    ensures ReadConf(ConfText(privateKey, p).value) ==
            Some(Reading(p.status.address + "/32", SplitHostPort(p.spec.endpoint).value.port, privateKey,
              AllShown(AllData(p.status.peers))))
            <==> PeerOneLined(privateKey, p)
  {
    var hp := SplitHostPort(p.spec.endpoint).value;
    var t := TemplateData(p.status.address + "/32", hp.port, privateKey, AllData(p.status.peers));
    RenderedReadsExact(t);
    DataOneLine(p.status.peers);
    AddressOneLine(p.status.address);
  }

  // ---- The two printers ----

  lemma ReadersAgree(peers: seq<PeerConfiguration>)
    requires forall c <- peers :: Printable(c)
    ensures AllConveyed(peers) == AllShown(AllData(peers)) <==> forall c <- peers :: !Bracketed(c.endpoint)
  {
    var shown := AllShown(AllData(peers));
    forall i | 0 <= i < |peers| ensures AllConveyed(peers)[i] == shown[i] <==> !Bracketed(peers[i].endpoint) {
      assert peers[i] in peers && Printable(peers[i]);
      if peers[i].endpoint != "" {
        RejoinExact(peers[i].endpoint);
      }
    }
  }

  lemma RejoinedOneLine(endpoint: string)
    requires endpoint == "" || Splits(endpoint)
    requires OneLine(Rejoined(endpoint))
    ensures OneLine(endpoint)
  {
    if endpoint != "" {
      var hp, i := SplitHostPort(endpoint).value, LastIndex(endpoint, ':');
      forall k | 0 <= k < |endpoint| ensures endpoint[k] != '\n' {
        RejoinedChar(endpoint, k);
      }
    }
  }

  /** Every character of an endpoint but brackets and the last colon is one of host or port. */
  lemma RejoinedChar(endpoint: string, k: nat)
    requires Splits(endpoint) && k < |endpoint|
    ensures endpoint[k] in "[]:" || endpoint[k] in Rejoined(endpoint)
  {
    var hp, i := SplitHostPort(endpoint).value, LastIndex(endpoint, ':');
    if k > i {
      assert hp.port[k - i - 1] == endpoint[k];
    } else if k < i && endpoint[0] != '[' {
      assert hp.host[k] == endpoint[k];
    } else if 0 < k < i - 1 {
      assert hp.host[k - 1] == endpoint[k];
    }
  }

  lemma ConveyedOneLine(peers: seq<PeerConfiguration>)
    requires forall c <- peers :: Printable(c)
    requires forall w <- AllConveyed(peers) :: PeerRead(w)
    ensures forall c <- peers :: OneLine(c.publicKey) && OneLine(c.endpoint) && Free(c.allowedIPs, '\n')
  {
    forall c | c in peers ensures OneLine(c.publicKey) && OneLine(c.endpoint) && Free(c.allowedIPs, '\n') {
      var i :| 0 <= i < |peers| && peers[i] == c;
      assert AllConveyed(peers)[i] == Conveyed(c) && PeerRead(Conveyed(c));
      RejoinedOneLine(c.endpoint);
      DecodeListOneLine(Join(c.allowedIPs, ','));
      JoinChars(c.allowedIPs, ',', '\n');
    }
  }

  predicate Unbracketed(peers: seq<PeerConfiguration>) {
    forall c <- peers :: !Bracketed(c.endpoint)
  }

  /** What the file would say if it agreed with the arguments: their port and peers, and the address that the guardlet
      configures. */
  function Agreed(args: WgConfig, privateKey: string, p: Peer): Reading {
    Reading(Masked(p.status.address), args.port, privateKey, args.peers)
  }

  /** Both can be printed and read, and say the same. */
  ghost predicate PrintersAgree(iface: string, keyFile: string, privateKey: string, p: Peer) {
    && CfgArgs(iface, keyFile, p).Ok? && ConfText(privateKey, p).Ok?
    && ReadArgs(CfgArgs(iface, keyFile, p).value).Some?
    && ReadConf(ConfText(privateKey, p).value) ==
        Some(Agreed(ReadArgs(CfgArgs(iface, keyFile, p).value).value, privateKey, p))
  }

  lemma AgreementOneLine(iface: string, keyFile: string, privateKey: string, p: Peer)
    requires PrintersAgree(iface, keyFile, privateKey, p)
    ensures PeerOneLined(privateKey, p)
  {
    ReadConfOneLine(ConfText(privateKey, p).value);
    PrintedReads(iface, keyFile, p);
    ConveyedOneLine(p.status.peers);
    AddressOneLine(p.status.address);
  }

  /** Without newlines, the ports always agree, the peers exactly when no listed endpoint is in brackets, and the
      addresses exactly when there is no mask. */
  lemma OneLinedAgree(iface: string, keyFile: string, privateKey: string, p: Peer)
    requires CfgArgs(iface, keyFile, p).Ok? && PeerOneLined(privateKey, p)
    ensures ConfText(privateKey, p).Ok?
    ensures var args := ReadArgs(CfgArgs(iface, keyFile, p).value);
            var conf := ReadConf(ConfText(privateKey, p).value);
            && args.Some? && conf.Some?
            && args.value.port == conf.value.port && conf.value.privateKey == privateKey
            && (args.value.peers == conf.value.peers <==> Unbracketed(p.status.peers))
            && (conf.value.address == Masked(p.status.address) <==> '/' !in p.status.address)
  {
    PrintedReads(iface, keyFile, p);
    ConfReads(privateKey, p);
    ReadersAgree(p.status.peers);
  }

  /** The file says just what the arguments say exactly when nothing in it holds a newline, no listed endpoint is in
      brackets, and the peer's own address has no mask yet. */
  lemma PrintersAgreeExact(iface: string, keyFile: string, privateKey: string, p: Peer)
    requires CfgArgs(iface, keyFile, p).Ok?
    ensures PrintersAgree(iface, keyFile, privateKey, p) <==>
              PeerOneLined(privateKey, p) && Unbracketed(p.status.peers) && '/' !in p.status.address
  {
    if PeerOneLined(privateKey, p) {
      OneLinedAgree(iface, keyFile, privateKey, p);
    } else if PrintersAgree(iface, keyFile, privateKey, p) {
      AgreementOneLine(iface, keyFile, privateKey, p);
    }
  }

  /** A computed list shows the endpoints of the listening linked peers, and no others. */
  lemma ComputedBrackets(self: Peer, peers: seq<Peer>, bindings: seq<RouteBinding>)
    ensures Unbracketed(PeerController.Entries(self, peers, bindings)) <==>
              forall q <- peers :: PeerController.Linked(self, q) && PeerController.Listens(q) ==>
                !Bracketed(q.spec.endpoint)
  {
    var cfgs := PeerController.Entries(self, peers, bindings);
    forall c | c in cfgs
      ensures c.endpoint == "" || exists q <- peers ::
          PeerController.Linked(self, q) && PeerController.Listens(q) && q.spec.endpoint == c.endpoint
    {
      var q := MeshFacts.EntrySource(self, peers, bindings, c);
    }
    forall q | q in peers && PeerController.Linked(self, q) && PeerController.Listens(q)
      ensures exists c <- cfgs :: c.endpoint == q.spec.endpoint
    {
      MeshFacts.EntryPresent(self, peers, bindings, q);
      assert PeerController.Entry(q, bindings).endpoint == q.spec.endpoint;
    }
  }

  /** For a list that the controller computed: file and arguments agree exactly when nothing holds a newline, no
      listening neighbour gives its endpoint in brackets, and the peer's own address has no mask. */
  lemma ComputedPrintersAgree(iface: string, keyFile: string, privateKey: string, p: Peer,
                              self: Peer, peers: seq<Peer>, bindings: seq<RouteBinding>)
    requires PeerController.Mesh(self, peers, bindings) == Ok(p.status.peers)
    requires CfgArgs(iface, keyFile, p).Ok?
    ensures PrintersAgree(iface, keyFile, privateKey, p) <==>
              && PeerOneLined(privateKey, p)
              && '/' !in p.status.address
              && forall q <- peers :: PeerController.Linked(self, q) && PeerController.Listens(q) ==>
                  !Bracketed(q.spec.endpoint)
  {
    PrintersAgreeExact(iface, keyFile, privateKey, p);
    ComputedBrackets(self, peers, bindings);
  }
}
