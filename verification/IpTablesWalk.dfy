/**
  The way of a packet through the nat table after bootstrap: from POSTROUTING by
  the jump into the flannel chain, and back.
 */
module IpTablesWalk {
  import opened Base
  import opened Bits
  import opened IpNet
  import opened IpTables
  import opened IpTablesOrder

  const POSTROUTING := ChainKey("nat", "POSTROUTING")

  /**
    The target that decides a packet on its way through a list of rules; none if it
    comes out at the end or by RETURN.  A target that names a chain of the table is
    a jump, up to the given depth.
   */
  function Walk(w: nat, chains: Chains, table: string, rules: seq<RuleSpec>, p: Packet, depth: nat): Option<string>
    decreases depth, |rules|
  {
    if rules == [] then None
    else if !SpecMatches(w, rules[0], p) then Walk(w, chains, table, rules[1..], p, depth)
    else
      var t := rules[0].target;
      if t == "RETURN" then None
      else if ChainKey(table, t) !in chains then Some(t)
      else
        var inside := if depth == 0 then None else Walk(w, chains, table, chains[ChainKey(table, t)], p, depth - 1);
        if inside.Some? then inside else Walk(w, chains, table, rules[1..], p, depth)
  }

  lemma {:induction false} WalkSkips(
    w: nat, chains: Chains, table: string, a: seq<RuleSpec>, b: seq<RuleSpec>, p: Packet, depth: nat)
    requires forall s :: s in a ==> !SpecMatches(w, s, p)
    ensures Walk(w, chains, table, a + b, p, depth) == Walk(w, chains, table, b, p, depth)
    decreases |a|
  {
    hide SpecMatches;
    if a == [] {
      assert a + b == b;
    } else {
      assert a[0] in a && (a + b)[0] == a[0] && (a + b)[1..] == a[1..] + b;
      WalkSkips(w, chains, table, a[1..], b, p, depth);
    }
  }

  /** In a chain without jumps the walk is the first match. */
  lemma {:induction false} WalkIsVerdict(w: nat, chains: Chains, rules: seq<RuleSpec>, p: Packet, depth: nat)
    requires forall s :: s in rules ==> s.target == "RETURN" || s.target == "MASQUERADE"
    requires ChainKey("nat", "MASQUERADE") !in chains
    ensures Walk(w, chains, "nat", rules, p, depth) == Some("MASQUERADE") <==>
      Verdict(w, rules, p) == Some("MASQUERADE")
    decreases |rules|
  {
    hide SpecMatches;
    if rules == [] {
    } else {
      assert rules[0] in rules && |"RETURN"| == 6 && |"MASQUERADE"| == 10;
      WalkIsVerdict(w, chains, rules[1..], p, depth);
    }
  }

  /** The rule that leads into the flannel chain: it has no condition. */
  function Jump(): RuleSpec {
    RuleSpec([], "flanneld masq", "FLANNEL-POSTRTG", false)
  }

  /** Tables, chains, comment and options of the masquerade rules. */
  lemma MasqRulesShape(cluster: Net, pod: Net, multicast: Net, disable: bool, supports: bool)
    ensures var rules := MasqRules(cluster, pod, multicast, disable, supports);
      && |rules| == 7 && rules[0] == Rule("nat", "POSTROUTING", Jump())
      && (forall i :: 1 <= i < 7 ==> rules[i].table == "nat" && rules[i].chain == "FLANNEL-POSTRTG")
      && (forall r :: r in rules ==> r.spec.comment == "flanneld masq")
      && (forall r :: r in rules ==> (r.spec.randomFully <==> r.spec.target == "MASQUERADE" && supports && !disable))
  {
    assert |"RETURN"| == 6 && |"MASQUERADE"| == 10 && |"FLANNEL-POSTRTG"| == 15;
  }

  lemma {:induction false} JumpWanted(cluster: Net, pod: Net, multicast: Net, disable: bool, supports: bool)
    ensures RulesFor(MasqRules(cluster, pod, multicast, disable, supports), POSTROUTING) == [Jump()]
  {
    var rules := MasqRules(cluster, pod, multicast, disable, supports);
    MasqRulesShape(cluster, pod, multicast, disable, supports);
    assert |"POSTROUTING"| == 11 && |"FLANNEL-POSTRTG"| == 15;
    hide MasqRules;
    FirstOnly(rules, 7);
    assert rules[..7] == rules;
  }

  lemma {:induction false} FirstOnly(rules: seq<Rule>, n: nat)
    requires 1 <= n <= |rules| && KeyOf(rules[0]) == POSTROUTING
    requires forall i :: 1 <= i < |rules| ==> KeyOf(rules[i]) != POSTROUTING
    ensures RulesFor(rules[..n], POSTROUTING) == [rules[0].spec]
  {
    assert rules[..n][..n - 1] == rules[..n - 1];
    if n == 1 {
      assert rules[..0] == [];
    } else {
      FirstOnly(rules, n - 1);
    }
  }

  /** The flannel chain after bootstrap is the wanted one, and its rules masquerade or return. */
  lemma {:induction false} FlannelChainAfter(
    chains: Chains, cluster: Net, pod: Net, multicast: Net, disable: bool, supports: bool)
    requires POSTROUTING in chains
    requires var c, wanted := Content(chains, NAT_POSTRTG), PostrtgChain(cluster, pod, multicast, disable, supports);
      SameCounts(c, wanted) && forall s :: s in c ==> s in wanted
    ensures var r := Bootstrapped(chains, MasqRules(cluster, pod, multicast, disable, supports));
      && r.Ok? && NAT_POSTRTG in r.value
      && r.value[NAT_POSTRTG] == PostrtgChain(cluster, pod, multicast, disable, supports)
    ensures forall s :: s in PostrtgChain(cluster, pod, multicast, disable, supports) ==>
      s.target == "RETURN" || s.target == "MASQUERADE"
  {
    OwnTargets(cluster, pod, multicast, disable, supports);
    hide MasqRules, PostrtgChain, Bootstrapped, Foreign, RulesFor, SameCounts, ChainsAvailable, KeyOf, Creates,
         WithoutEach, Present;
    var rules := MasqRules(cluster, pod, multicast, disable, supports);
    var wanted := PostrtgChain(cluster, pod, multicast, disable, supports);
    MasqRulesAvailable(chains, cluster, pod, multicast, disable, supports);
    MasqRulesFor(cluster, pod, multicast, disable, supports);
    BootstrapOrders(chains, rules, NAT_POSTRTG);
    ForeignOfWanted(Content(chains, NAT_POSTRTG), wanted);
    assert [] + wanted == wanted;
  }

  lemma OwnTargets(cluster: Net, pod: Net, multicast: Net, disable: bool, supports: bool)
    ensures forall s :: s in PostrtgChain(cluster, pod, multicast, disable, supports) ==>
      s.target == "RETURN" || s.target == "MASQUERADE"
  {
    var c := PostrtgChain(cluster, pod, multicast, disable, supports);
    forall s | s in c
      ensures s.target == "RETURN" || s.target == "MASQUERADE"
    {
      var i :| 0 <= i < 6 && s == c[i];
    }
  }

  /** POSTROUTING after bootstrap: its foreign rules, and then the jump. */
  lemma {:induction false} PostroutingAfter(
    chains: Chains, cluster: Net, pod: Net, multicast: Net, disable: bool, supports: bool)
    requires POSTROUTING in chains && Count(chains[POSTROUTING], Jump()) <= 1
    ensures var r := Bootstrapped(chains, MasqRules(cluster, pod, multicast, disable, supports));
      && r.Ok? && POSTROUTING in r.value
      && r.value[POSTROUTING] == Foreign(chains[POSTROUTING], [Jump()]) + [Jump()]
      && (forall k :: k in r.value ==> k in chains || k.chain == "FLANNEL-POSTRTG" || k.chain == "FLANNEL-FWD")
  {
    var rules := MasqRules(cluster, pod, multicast, disable, supports);
    var c := chains[POSTROUTING];
    OneJump(c);
    JumpWanted(cluster, pod, multicast, disable, supports);
    MasqRulesAvailable(chains, cluster, pod, multicast, disable, supports);
    hide MasqRules, Bootstrapped, Foreign, RulesFor, SameCounts, ChainsAvailable, WithoutEach, Present, Jump, Creates;
    BootstrapOrders(chains, rules, POSTROUTING);
    NewChains(chains, rules);
  }

  /** Bootstrap creates flannel chains only. */
  lemma {:induction false} NewChains(chains: Chains, rules: seq<Rule>)
    requires ChainsAvailable(chains, rules)
    ensures Bootstrapped(chains, rules).Ok?
    ensures forall k :: k in Bootstrapped(chains, rules).value ==>
      k in chains || k.chain == "FLANNEL-POSTRTG" || k.chain == "FLANNEL-FWD"
  {
    hide Bootstrapped, Foreign, RulesFor, SameCounts, ChainsAvailable, WithoutEach, Present, Creates;
    BootstrapSucceeds(chains, rules);
    forall k | k in Bootstrapped(chains, rules).value && k !in chains
      ensures k.chain == "FLANNEL-POSTRTG" || k.chain == "FLANNEL-FWD"
    {
      BootstrapOrders(chains, rules, k);
      CreatedName(rules, k);
    }
  }

  lemma CreatedName(rules: seq<Rule>, k: ChainKey)
    requires Creates(rules, k)
    ensures k.chain == "FLANNEL-POSTRTG" || k.chain == "FLANNEL-FWD"
  {
  }

  lemma OneJump(c: seq<RuleSpec>)
    requires Count(c, Jump()) <= 1
    ensures SameCounts(c, [Jump()])
  {
    hide Count;
    CountOne(Jump(), Jump());
    CountAppend(c, [], Jump());
  }

  /**
    The whole way: whatever order the flannel chain was in, after bootstrap a packet
    that no foreign rule of POSTROUTING concerns is masqueraded if and only if it
    should be.
   */
  lemma {:induction false} PostroutingMasquerades(
    chains: Chains, w: nat, cluster: Net, pod: Net, multicast: Net, disable: bool, supports: bool, p: Packet,
    depth: nat)
    requires Fits(w, cluster) && Fits(w, pod) && ContainsCidr(w, cluster, pod) && p.src < Pow2(w) && depth >= 1
    requires ChainKey("nat", "POSTROUTING") in chains && ChainKey("nat", "MASQUERADE") !in chains
    requires var c := chains[ChainKey("nat", "POSTROUTING")];
      Count(c, Jump()) <= 1 && forall s :: s in c && s != Jump() ==> !SpecMatches(w, s, p)
    requires var c, wanted := Content(chains, NAT_POSTRTG), PostrtgChain(cluster, pod, multicast, disable, supports);
      SameCounts(c, wanted) && forall s :: s in c ==> s in wanted
    ensures var r := Bootstrapped(chains, MasqRules(cluster, pod, multicast, disable, supports));
      && r.Ok? && ChainKey("nat", "POSTROUTING") in r.value
      && (Walk(w, r.value, "nat", r.value[ChainKey("nat", "POSTROUTING")], p, depth) == Some("MASQUERADE")
          <==> ShouldMasquerade(w, cluster, pod, multicast, p))
  {
    var rules, c := MasqRules(cluster, pod, multicast, disable, supports), chains[POSTROUTING];
    var wanted := PostrtgChain(cluster, pod, multicast, disable, supports);
    NamesApart();
    hide MasqRules, PostrtgChain, Bootstrapped, Foreign, SameCounts, Count, ShouldMasquerade, ContainsCidr, Verdict,
         SpecMatches, Walk, Content;
    PostroutingAfter(chains, cluster, pod, multicast, disable, supports);
    FlannelChainAfter(chains, cluster, pod, multicast, disable, supports);
    var after := Bootstrapped(chains, rules).value;
    var foreign := Foreign(c, [Jump()]);
    forall s | s in foreign
      ensures !SpecMatches(w, s, p)
    {
      ForeignMembers(c, [Jump()], s);
    }
    WalkSkips(w, after, "nat", foreign, [Jump()], p, depth);
    WalkJump(w, after, p, depth);
    WalkIsVerdict(w, after, wanted, p, depth - 1);
    MasqChainDecides(w, cluster, pod, multicast, disable, supports, p);
  }

  lemma NamesApart()
    ensures "MASQUERADE" != "FLANNEL-POSTRTG" && "MASQUERADE" != "FLANNEL-FWD"
    ensures NAT_POSTRTG == ChainKey("nat", "FLANNEL-POSTRTG")
  {
    assert |"MASQUERADE"| == 10 && |"FLANNEL-POSTRTG"| == 15 && |"FLANNEL-FWD"| == 11;
  }

  /** The jump alone: what the flannel chain decides is decided. */
  lemma {:induction false} WalkJump(w: nat, chains: Chains, p: Packet, depth: nat)
    requires depth >= 1 && NAT_POSTRTG in chains
    ensures Walk(w, chains, "nat", [Jump()], p, depth) == Walk(w, chains, "nat", chains[NAT_POSTRTG], p, depth - 1)
  {
    assert |"RETURN"| == 6 && |"FLANNEL-POSTRTG"| == 15;
    assert [Jump()][1..] == [] && SpecMatches(w, Jump(), p);
  }
}
