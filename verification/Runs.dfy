/** Runs of atomic reconciles over one cluster, and the bound on how often they write. */
module Runs {
  import opened Common
  import opened Api
  import opened ApiServer
  import opened NetworkController
  import opened PeerController
  import opened Allocations
  import MeshFacts
  import NetworkChoice

  datatype Event = PeerEvent(name: string) | NetworkEvent(name: string)

  /** A reconcile that reads the state it writes. */
  function Step(c: Cluster, e: Event): Cluster {
    match e
    case PeerEvent(name) => PeerStep(c, c, name)
    case NetworkEvent(name) => NetworkStep(c, c, name)
  }

  function Run(c: Cluster, es: seq<Event>): Cluster
    decreases |es|
  {
    if es == [] then c else Run(Step(c, es[0]), es[1..])
  }

  /** Object names are unique and network names are not empty, as the API server enforces. */
  ghost predicate WellFormed(c: Cluster) {
    && UniqueNames(PeerNames(c.peers))
    && UniqueNames(NetworkNames(c.networks))
    && forall n <- c.networks :: n.name != ""
  }

  // ---- Steps by position ----

  datatype Change = Nothing | PeerChange(i: nat, status: PeerStatus) | NetworkChange(j: nat)

  function ChangeOf(c: Cluster, e: Event): (ch: Change)
    ensures ch.PeerChange? ==> ch.i < |c.peers|
    ensures ch.NetworkChange? ==> ch.j < |c.networks|
  {
    match e
    case PeerEvent(name) =>
      (match Position(PeerNames(c.peers), name)
       case None => Nothing
       case Some(i) =>
         match NextStatus(c.peers[i], c)
         case Err => Nothing
         case Ok(s) => if s == c.peers[i].status then Nothing else PeerChange(i, s))
    case NetworkEvent(name) =>
      match Position(NetworkNames(c.networks), name)
      case None => Nothing
      case Some(j) => if Fresh(c.networks[j], c.peers) == [] then Nothing else NetworkChange(j)
  }

  function Apply(c: Cluster, ch: Change): Cluster
    requires ch.PeerChange? ==> ch.i < |c.peers|
    requires ch.NetworkChange? ==> ch.j < |c.networks|
  {
    match ch
    case Nothing => c
    case PeerChange(i, s) => PutPeer(c, i, s)
    case NetworkChange(j) => PutNetwork(c, j, NetworkStatus(NextAllocations(c.networks[j], c.peers)))
  }

  lemma StepIs(c: Cluster, e: Event)
    ensures Step(c, e) == Apply(c, ChangeOf(c, e))
    ensures Step(c, e) == c <==> ChangeOf(c, e).Nothing?
  {
    match e
    case PeerEvent(name) =>
    case NetworkEvent(name) =>
      match Position(NetworkNames(c.networks), name)
      case None =>
      case Some(j) =>
        var n := c.networks[j];
        assert |NextAllocations(n, c.peers)| == |n.status.allocations| + |Fresh(n, c.peers)|;
  }

  /** Clusters that differ only in statuses, versions and clock. */
  ghost predicate SameSpecs(c: Cluster, d: Cluster) {
    && |c.peers| == |d.peers| && |c.networks| == |d.networks| && c.bindings == d.bindings
    && (forall i :: 0 <= i < |c.peers| ==> c.peers[i].meta == d.peers[i].meta && c.peers[i].spec == d.peers[i].spec)
    && (forall j :: 0 <= j < |c.networks| ==>
        c.networks[j].name == d.networks[j].name && c.networks[j].spec == d.networks[j].spec)
  }

  lemma SameSpecsNames(c: Cluster, d: Cluster)
    requires SameSpecs(c, d)
    ensures PeerNames(c.peers) == PeerNames(d.peers) && NetworkNames(c.networks) == NetworkNames(d.networks)
    ensures WellFormed(c) ==> WellFormed(d)
  {
    assert forall i :: 0 <= i < |d.networks| ==>
        c.networks[i] in c.networks && c.networks[i].name == d.networks[i].name;
  }

  lemma StepKeepsSpecs(c: Cluster, e: Event)
    ensures SameSpecs(c, Step(c, e))
  {
    StepIs(c, e);
  }

  lemma {:induction false} RunKeepsSpecs(c: Cluster, es: seq<Event>)
    ensures SameSpecs(c, Run(c, es))
    decreases |es|
  {
    if es != [] {
      StepKeepsSpecs(c, es[0]);
      RunKeepsSpecs(Step(c, es[0]), es[1..]);
    }
  }

  lemma {:induction false} RunAppend(c: Cluster, es: seq<Event>, fs: seq<Event>)
    ensures Run(c, es + fs) == Run(Run(c, es), fs)
    decreases |es|
  {
    if es == [] {
      assert es + fs == fs;
    } else {
      assert (es + fs)[1..] == es[1..] + fs;
      RunAppend(Step(c, es[0]), es[1..], fs);
    }
  }

  // ---- Counting writes ----

  ghost function Writes(c: Cluster, es: seq<Event>): nat
    decreases |es|
  {
    if es == [] then 0
    else (if Step(c, es[0]) != c then 1 else 0) + Writes(Step(c, es[0]), es[1..])
  }

  /** The peer's network holds an entry for it. */
  predicate HasEntry(c: Cluster, i: nat)
    requires i < |c.peers|
  {
    match FindNetwork(c.networks, c.peers[i].status.network)
    case None => false
    case Some(n) => c.peers[i].meta.name in AllocationNames(n.status.allocations)
  }

  ghost function NoNetwork(c: Cluster): set<nat> {
    set i: nat | i < |c.peers| && c.peers[i].status.network == ""
  }

  ghost function NoEntry(c: Cluster): set<nat> {
    set i: nat | i < |c.peers| && !HasEntry(c, i)
  }

  ghost function NoAddress(c: Cluster): set<nat> {
    set i: nat | i < |c.peers| && c.peers[i].status.address == ""
  }

  /** Addressed peers whose stored list differs from the one a reconcile would compute. */
  ghost function Outdated(c: Cluster): set<nat> {
    set i: nat | i < |c.peers| && c.peers[i].status.address != "" && c.peers[i].status.network != ""
                 && ChangeOf(c, PeerEvent(c.peers[i].meta.name)).PeerChange?
  }

  ghost function Missing(c: Cluster): nat {
    |NoNetwork(c)| + |NoEntry(c)| + |NoAddress(c)|
  }

  /** m * (n + 1) + o. */
  ghost function Weight(m: nat, n: nat, o: nat): nat {
    if m == 0 then o else n + 1 + Weight(m - 1, n, o)
  }

  ghost function Measure(c: Cluster): nat {
    Weight(Missing(c), |c.peers|, |Outdated(c)|)
  }

  lemma {:induction false} WeightIs(m: nat, n: nat, o: nat)
    ensures Weight(m, n, o) == m * (n + 1) + o
  {
    if m != 0 {
      WeightIs(m - 1, n, o);
    }
  }

  lemma {:induction false} WeightDrops(m: nat, m': nat, n: nat, o: nat, o': nat)
    requires m' < m && o' <= n
    ensures Weight(m', n, o') < Weight(m, n, o)
  {
    if m' == 0 {
      assert Weight(m, n, o) >= n + 1;
    } else {
      WeightDrops(m - 1, m' - 1, n, o, o');
    }
  }

  lemma {:induction false} WeightGrows(m: nat, n: nat, o: nat, o': nat)
    requires o' < o
    ensures Weight(m, n, o') < Weight(m, n, o)
  {
    if m != 0 {
      WeightGrows(m - 1, n, o, o');
    }
  }

  lemma {:induction false} MulMono(a: nat, b: nat, k: nat)
    requires a <= b
    ensures a * k <= b * k
  {
    if k != 0 {
      MulMono(a, b, k - 1);
      assert a * k == a * (k - 1) + a && b * k == b * (k - 1) + b;
    }
  }

  /** m times k. */
  ghost function Times(m: nat, k: nat): nat {
    if m == 0 then 0 else k + Times(m - 1, k)
  }

  lemma {:induction false} TimesIs(m: nat, k: nat)
    ensures Times(m, k) == m * k
  {
    if m != 0 {
      TimesIs(m - 1, k);
    }
  }

  lemma {:induction false} TimesGrows(m: nat, m': nat, k: nat)
    requires m' < m
    ensures Times(m', k) + k <= Times(m, k)
  {
    if m' < m - 1 {
      TimesGrows(m - 1, m', k);
    }
  }

  lemma WeightBound(m: nat, n: nat, o: nat)
    requires m <= 3 * n && o <= n
    ensures Weight(m, n, o) <= 3 * n * (n + 1) + n
  {
    WeightIs(m, n, o);
    MulMono(m, 3 * n, n + 1);
  }

  lemma {:induction false} BoundedSet(s: set<nat>, n: nat)
    requires forall i <- s :: i < n
    ensures |s| <= n
  {
    if n == 0 {
      assert s == {};
    } else {
      BoundedSet(s - {n - 1}, n - 1);
    }
  }

  lemma SubsetSize(s: set<nat>, t: set<nat>)
    requires s <= t
    ensures |s| <= |t|
    ensures s != t ==> |s| < |t|
  {
    assert t == s + (t - s);
    assert |t| == |s| + |t - s|;
  }

  lemma FewerElements(s: set<nat>, t: set<nat>, x: nat)
    requires s <= t - {x} && x in t
    ensures |s| < |t|
  {
    SubsetSize(s, t);
  }

  lemma MeasureBound(c: Cluster)
    ensures var n := |c.peers|; Measure(c) <= 3 * n * (n + 1) + n
    ensures |Outdated(c)| <= |c.peers|
  {
    var n := |c.peers|;
    BoundedSet(NoNetwork(c), n);
    BoundedSet(NoEntry(c), n);
    BoundedSet(NoAddress(c), n);
    BoundedSet(Outdated(c), n);
    WeightBound(Missing(c), n, |Outdated(c)|);
  }

  lemma FindAfterPut(c: Cluster, j: nat, status: NetworkStatus, name: string)
    requires j < |c.networks|
    ensures NetworkNames(PutNetwork(c, j, status).networks) == NetworkNames(c.networks)
    ensures match Position(NetworkNames(c.networks), name)
            case None => FindNetwork(PutNetwork(c, j, status).networks, name) == None
            case Some(k) =>
              var later := PutNetwork(c, j, status).networks;
              FindNetwork(later, name) == Some(later[k])
  {
    assert NetworkNames(PutNetwork(c, j, status).networks) == NetworkNames(c.networks);
  }

  /** A network write gives an entry to some peer that had none and takes none away. */
  lemma NetworkWriteFills(c: Cluster, j: nat)
    requires WellFormed(c) && j < |c.networks| && Fresh(c.networks[j], c.peers) != []
    ensures var d := Apply(c, NetworkChange(j));
            NoEntry(d) <= NoEntry(c) && NoEntry(d) != NoEntry(c)
  {
    hide AssignedAddress;
    var n := c.networks[j];
    var added := Fresh(n, c.peers);
    var d := Apply(c, NetworkChange(j));
    NamesAppend(n.status.allocations, added);
    forall i: nat | i < |c.peers| && HasEntry(c, i) ensures HasEntry(d, i) {
      FindAfterPut(c, j, d.networks[j].status, c.peers[i].status.network);
    }
    FreshExact(n, c.peers, added[0]);
    var p :| p in c.peers && Gains(n, p) &&
        added[0] == IPAssignment(p.meta.name, AssignedAddress(p.meta, n.spec.allocations).value);
    var k: nat :| k < |c.peers| && c.peers[k] == p;
    PositionUnique(NetworkNames(c.networks), j);
    FindAfterPut(c, j, d.networks[j].status, n.name);
    assert AllocationNames(added)[0] == p.meta.name;
    assert p.meta.name in AllocationNames(d.networks[j].status.allocations);
    assert HasEntry(d, k) && !HasEntry(c, k);
    assert k in NoEntry(c) && k !in NoEntry(d);
  }

  lemma PeerWriteShape(c: Cluster, i: nat, s: PeerStatus)
    requires WellFormed(c) && i < |c.peers| && NextStatus(c.peers[i], c) == Ok(s) && s != c.peers[i].status
    ensures var t := c.peers[i].status;
            || (t.network == "" && s.network != "" && s == t.(network := s.network))
            || (t.network != "" && t.address == "" && s.address != "" && s == t.(address := s.address))
            || (t.network != "" && t.address != "" && Mesh(c.peers[i], c.peers, c.bindings) == Ok(s.peers) &&
                s == t.(peers := s.peers))
  {
    NetworkChoice.ChosenNetworkGrants(c.peers[i].meta, c.networks);
  }

  lemma ListWriteSpares(c: Cluster, i: nat, s: PeerStatus, k: nat)
    requires WellFormed(c) && i < |c.peers| && NextStatus(c.peers[i], c) == Ok(s) && s != c.peers[i].status
    requires c.peers[i].status.network != "" && c.peers[i].status.address != ""
    requires k in Outdated(PutPeer(c, i, s))
    ensures k in Outdated(c) && k != i
  {
    var d := PutPeer(c, i, s);
    PeerWriteShape(c, i, s);
    assert PeerNames(d.peers) == PeerNames(c.peers);
    PositionUnique(PeerNames(c.peers), k);
    MeshFacts.MeshCongruent(c.peers[k], d.peers[k], c.peers, d.peers, c.bindings);
  }

  /** A peer write in its last phase brings its own list up to date and leaves every other list as it was. */
  lemma ListWriteSettles(c: Cluster, i: nat, s: PeerStatus)
    requires WellFormed(c) && i < |c.peers| && NextStatus(c.peers[i], c) == Ok(s) && s != c.peers[i].status
    requires c.peers[i].status.network != "" && c.peers[i].status.address != ""
    ensures var d := PutPeer(c, i, s); Outdated(d) <= Outdated(c) - {i} && i in Outdated(c)
  {
    PositionUnique(PeerNames(c.peers), i);
    forall k | k in Outdated(PutPeer(c, i, s)) ensures k in Outdated(c) - {i} {
      ListWriteSpares(c, i, s, k);
    }
  }

  lemma NoEmptyName(c: Cluster)
    requires WellFormed(c)
    ensures FindNetwork(c.networks, "") == None
  {
    assert forall i :: 0 <= i < |c.networks| ==> c.networks[i] in c.networks && NetworkNames(c.networks)[i] != "";
  }

  lemma PeerWriteEntries(c: Cluster, i: nat, s: PeerStatus)
    requires WellFormed(c) && i < |c.peers| && NextStatus(c.peers[i], c) == Ok(s) && s != c.peers[i].status
    ensures NoEntry(PutPeer(c, i, s)) <= NoEntry(c)
    ensures s.network == c.peers[i].status.network ==> NoEntry(PutPeer(c, i, s)) == NoEntry(c)
  {
    PeerWriteShape(c, i, s);
    var d := PutPeer(c, i, s);
    assert forall k: nat :: k < |c.peers| && k != i ==> d.peers[k] == c.peers[k];
    if c.peers[i].status.network == "" {
      NoEmptyName(c);
      assert i in NoEntry(c);
    }
  }

  lemma LowerMissing(c: Cluster, d: Cluster)
    requires |c.peers| == |d.peers| && Missing(d) < Missing(c)
    ensures Measure(d) < Measure(c)
  {
    MeasureBound(d);
    WeightDrops(Missing(c), Missing(d), |c.peers|, |Outdated(c)|, |Outdated(d)|);
  }

  lemma NetworkWriteDecreases(c: Cluster, j: nat)
    requires WellFormed(c) && j < |c.networks| && Fresh(c.networks[j], c.peers) != []
    ensures Measure(Apply(c, NetworkChange(j))) < Measure(c)
  {
    var d := Apply(c, NetworkChange(j));
    NetworkWriteFills(c, j);
    SubsetSize(NoEntry(d), NoEntry(c));
    assert NoNetwork(d) == NoNetwork(c) && NoAddress(d) == NoAddress(c);
    LowerMissing(c, d);
  }

  lemma PlacementDecreases(c: Cluster, i: nat, s: PeerStatus)
    requires WellFormed(c) && i < |c.peers| && NextStatus(c.peers[i], c) == Ok(s) && s != c.peers[i].status
    requires c.peers[i].status.network == "" || c.peers[i].status.address == ""
    ensures Measure(PutPeer(c, i, s)) < Measure(c)
  {
    var d := PutPeer(c, i, s);
    PeerWriteShape(c, i, s);
    PeerWriteEntries(c, i, s);
    SubsetSize(NoEntry(d), NoEntry(c));
    if c.peers[i].status.network == "" {
      assert i in NoNetwork(c) && i !in NoNetwork(d) && NoNetwork(d) <= NoNetwork(c);
      assert NoAddress(d) == NoAddress(c);
      SubsetSize(NoNetwork(d), NoNetwork(c));
    } else {
      assert i in NoAddress(c) && i !in NoAddress(d) && NoAddress(d) <= NoAddress(c);
      assert NoNetwork(d) == NoNetwork(c);
      SubsetSize(NoAddress(d), NoAddress(c));
    }
    LowerMissing(c, d);
  }

  lemma ListWriteKeepsMissing(c: Cluster, i: nat, s: PeerStatus)
    requires WellFormed(c) && i < |c.peers| && NextStatus(c.peers[i], c) == Ok(s) && s != c.peers[i].status
    requires c.peers[i].status.network != "" && c.peers[i].status.address != ""
    ensures Missing(PutPeer(c, i, s)) == Missing(c)
  {
    var d := PutPeer(c, i, s);
    PeerWriteShape(c, i, s);
    PeerWriteEntries(c, i, s);
    assert NoNetwork(d) == NoNetwork(c) && NoAddress(d) == NoAddress(c);
  }

  lemma ListWriteDecreases(c: Cluster, i: nat, s: PeerStatus)
    requires WellFormed(c) && i < |c.peers| && NextStatus(c.peers[i], c) == Ok(s) && s != c.peers[i].status
    requires c.peers[i].status.network != "" && c.peers[i].status.address != ""
    ensures Measure(PutPeer(c, i, s)) < Measure(c)
  {
    var d := PutPeer(c, i, s);
    ListWriteKeepsMissing(c, i, s);
    ListWriteSettles(c, i, s);
    FewerElements(Outdated(d), Outdated(c), i);
    WeightGrows(Missing(c), |c.peers|, |Outdated(c)|, |Outdated(d)|);
  }

  /** Every write makes the measure smaller. */
  lemma WriteDecreases(c: Cluster, e: Event)
    requires WellFormed(c) && Step(c, e) != c
    ensures Measure(Step(c, e)) < Measure(c)
  {
    StepIs(c, e);
    match ChangeOf(c, e) {
      case NetworkChange(j) =>
        NetworkWriteDecreases(c, j);
      case PeerChange(i, s) =>
        if c.peers[i].status.network == "" || c.peers[i].status.address == "" {
          PlacementDecreases(c, i, s);
        } else {
          ListWriteDecreases(c, i, s);
        }
    }
  }

  lemma {:induction false} WritesDrawOnMeasure(c: Cluster, es: seq<Event>)
    requires WellFormed(c)
    ensures Writes(c, es) + Measure(Run(c, es)) <= Measure(c)
    decreases |es|
  {
    if es != [] {
      var d := Step(c, es[0]);
      StepKeepsSpecs(c, es[0]);
      SameSpecsNames(c, d);
      if d != c {
        WriteDecreases(c, es[0]);
      }
      WritesDrawOnMeasure(d, es[1..]);
    }
  }

  /** From any statuses, n peers cause at most 3n(n+1)+n writes in any run, in whatever order reconciles happen. */
  lemma BoundedWrites(c: Cluster, es: seq<Event>)
    requires WellFormed(c)
    ensures var n := |c.peers|; Writes(c, es) <= 3 * n * (n + 1) + n
  {
    WritesDrawOnMeasure(c, es);
    MeasureBound(c);
  }

  /** No reconcile of any object changes anything. */
  ghost predicate Quiescent(c: Cluster) {
    forall e :: Step(c, e) == c
  }

  /** Every state can be driven to rest. */
  lemma {:induction false} Settles(c: Cluster) returns (es: seq<Event>)
    requires WellFormed(c)
    ensures Quiescent(Run(c, es))
    decreases Measure(c)
  {
    if Quiescent(c) {
      es := [];
    } else {
      var e :| Step(c, e) != c;
      WriteDecreases(c, e);
      StepKeepsSpecs(c, e);
      SameSpecsNames(c, Step(c, e));
      var rest := Settles(Step(c, e));
      es := [e] + rest;
      assert es[1..] == rest;
    }
  }
}
