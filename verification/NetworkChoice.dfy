/** What choosing a network means: exactly one candidate, independent of every list order. */
module NetworkChoice {
  import opened Common
  import opened Api
  import opened PeerController
  import NetworkController

  /** Network `i` is the only one of the list that selects the peer. */
  ghost predicate Only(m: ObjectMeta, networks: seq<Network>, i: nat) {
    && i < |networks|
    && Selects(networks[i], m)
    && forall j :: 0 <= j < |networks| && j != i ==> !Selects(networks[j], m)
  }

  /** Two different networks of the list select the peer. */
  ghost predicate Contested(m: ObjectMeta, networks: seq<Network>) {
    exists i, j :: 0 <= i < j < |networks| && Selects(networks[i], m) && Selects(networks[j], m)
  }

  lemma {:induction false} SelectingCases(m: ObjectMeta, networks: seq<Network>)
    ensures |Selecting(m, networks)| == 0 ==> forall i :: 0 <= i < |networks| ==> !Selects(networks[i], m)
    ensures |Selecting(m, networks)| == 1 ==>
        exists i: nat :: Only(m, networks, i) && Selecting(m, networks) == [networks[i]]
    ensures |Selecting(m, networks)| >= 2 ==> Contested(m, networks)
  {
    if networks != [] {
      var k := |networks| - 1;
      var init := networks[..k];
      SelectingCases(m, init);
      if |Selecting(m, init)| == 1 {
        var i: nat :| Only(m, init, i) && Selecting(m, init) == [init[i]];
        assert networks[i] == init[i];
        if !Selects(networks[k], m) {
          assert Only(m, networks, i);
        }
      } else if |Selecting(m, init)| == 0 && Selects(networks[k], m) {
        assert Only(m, networks, k);
      }
      if Contested(m, init) {
        var i, j :| 0 <= i < j < |init| && Selects(init[i], m) && Selects(init[j], m);
        assert networks[i] == init[i] && networks[j] == init[j];
      }
    }
  }

  /** A network is returned exactly when one and only one selects the peer, an error exactly when two do. */
  lemma ChoiceExact(m: ObjectMeta, networks: seq<Network>)
    ensures var r := ChooseNetwork(m, networks);
            && (forall i: nat :: Only(m, networks, i) ==> r == Ok(Some(networks[i])))
            && (r.Ok? && r.value.Some? ==> exists i: nat :: Only(m, networks, i) && r.value.value == networks[i])
            && (r.Err? <==> Contested(m, networks))
            && (r == Ok(None) <==> forall i :: 0 <= i < |networks| ==> !Selects(networks[i], m))
  {
    SelectingCases(m, networks);
  }

  lemma {:induction false} SelectingCounts(m: ObjectMeta, networks: seq<Network>, n: Network)
    ensures multiset(Selecting(m, networks))[n] == if Selects(n, m) then multiset(networks)[n] else 0
  {
    if networks != [] {
      var init := networks[..|networks| - 1];
      SelectingCounts(m, init, n);
      assert networks == init + [networks[|networks| - 1]];
    }
  }

  /** The order in which networks are listed does not matter. */
  lemma ChoiceListOrderFree(m: ObjectMeta, networks: seq<Network>, shuffled: seq<Network>)
    requires multiset(networks) == multiset(shuffled)
    ensures ChooseNetwork(m, networks) == ChooseNetwork(m, shuffled)
  {
    var a, b := Selecting(m, networks), Selecting(m, shuffled);
    forall n: Network ensures multiset(a)[n] == multiset(b)[n] {
      SelectingCounts(m, networks, n);
      SelectingCounts(m, shuffled, n);
    }
    assert multiset(a) == multiset(b);
    assert |a| == |multiset(a)| == |multiset(b)| == |b|;
    if |a| == 1 {
      assert a == [a[0]] && b == [b[0]];
      assert a[0] in multiset(b);
    }
  }

  /** The name of the chosen network, which is all that a reconcile keeps. */
  function ChosenName(m: ObjectMeta, networks: seq<Network>): Option<string> {
    match ChooseNetwork(m, networks)
    case Ok(Some(n)) => Some(n.name)
    case _ => None
  }

  /** Two selectors that list the same names and the same labels. */
  ghost predicate SameSelector(s: PeerSelector, t: PeerSelector) {
    multiset(s.names) == multiset(t.names) && s.matchLabels == t.matchLabels
  }

  ghost predicate SameRule(r: AllocationRule, s: AllocationRule) {
    && r.address == s.address
    && (r.selector.Some? <==> s.selector.Some?)
    && (r.selector.Some? ==> SameSelector(r.selector.value, s.selector.value))
  }

  /** Every rule of `rules` occurs in `others`, up to the order of selector names. */
  ghost predicate Covered(rules: seq<AllocationRule>, others: seq<AllocationRule>) {
    forall i :: 0 <= i < |rules| ==> exists j :: 0 <= j < |others| && SameRule(rules[i], others[j])
  }

  lemma SameRuleMatches(m: ObjectMeta, r: AllocationRule, s: AllocationRule)
    requires SameRule(r, s) && RuleMatches(m, r)
    ensures RuleMatches(m, s)
  {
    if r.selector.Some? {
      var a, b := r.selector.value, s.selector.value;
      assert m.name in a.names <==> m.name in multiset(a.names);
      assert m.name in b.names <==> m.name in multiset(b.names);
    }
  }

  lemma CoveredSelects(m: ObjectMeta, n: Network, n': Network)
    requires Covered(n.spec.allocations, n'.spec.allocations) && Selects(n, m)
    ensures Selects(n', m)
  {
    var i :| 0 <= i < |n.spec.allocations| && RuleMatches(m, n.spec.allocations[i]);
    var j :| 0 <= j < |n'.spec.allocations| && SameRule(n.spec.allocations[i], n'.spec.allocations[j]);
    SameRuleMatches(m, n.spec.allocations[i], n'.spec.allocations[j]);
  }

  ghost predicate SameNames(networks: seq<Network>, others: seq<Network>) {
    |networks| == |others| && forall i :: 0 <= i < |networks| ==> networks[i].name == others[i].name
  }

  /** Lists with the same names in the same places, of which the same places select the peer. */
  ghost predicate SelectAlike(m: ObjectMeta, networks: seq<Network>, others: seq<Network>) {
    && SameNames(networks, others)
    && forall i :: 0 <= i < |networks| ==> (Selects(networks[i], m) <==> Selects(others[i], m))
  }

  lemma {:induction false} SelectingAlike(m: ObjectMeta, networks: seq<Network>, others: seq<Network>)
    requires SelectAlike(m, networks, others)
    ensures SameNames(Selecting(m, networks), Selecting(m, others))
  {
    if networks != [] {
      var k := |networks| - 1;
      SelectingAlike(m, networks[..k], others[..k]);
    }
  }

  lemma ChoiceAlike(m: ObjectMeta, networks: seq<Network>, others: seq<Network>)
    requires SelectAlike(m, networks, others)
    ensures ChosenName(m, networks) == ChosenName(m, others)
    ensures ChooseNetwork(m, networks).Err? <==> ChooseNetwork(m, others).Err?
  {
    SelectingAlike(m, networks, others);
  }

  /** Lists with the same names in the same places, each network having the same rules in any order. */
  ghost predicate SameChoices(networks: seq<Network>, others: seq<Network>) {
    && SameNames(networks, others)
    && forall i :: 0 <= i < |networks| ==>
         && Covered(networks[i].spec.allocations, others[i].spec.allocations)
         && Covered(others[i].spec.allocations, networks[i].spec.allocations)
  }

  /** Reordering rules inside networks, or names inside selectors, does not change the choice or its error. */
  lemma ChoiceRuleOrderFree(m: ObjectMeta, networks: seq<Network>, others: seq<Network>)
    requires SameChoices(networks, others)
    ensures ChosenName(m, networks) == ChosenName(m, others)
    ensures ChooseNetwork(m, networks).Err? <==> ChooseNetwork(m, others).Err?
  {
    forall i | 0 <= i < |networks| ensures Selects(networks[i], m) <==> Selects(others[i], m) {
      if Selects(networks[i], m) {
        CoveredSelects(m, networks[i], others[i]);
      }
      if Selects(others[i], m) {
        CoveredSelects(m, others[i], networks[i]);
      }
    }
    ChoiceAlike(m, networks, others);
  }

  /** The two controllers agree on matching: a chosen network always has a rule that grants an address. */
  lemma ChosenNetworkGrants(m: ObjectMeta, networks: seq<Network>)
    ensures var r := ChooseNetwork(m, networks);
            r.Ok? && r.value.Some? ==>
              && r.value.value in networks
              && NetworkController.AssignedAddress(m, r.value.value.spec.allocations).Some?
  {
    ChoiceExact(m, networks);
  }
}
