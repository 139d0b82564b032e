/**
  The iptables traffic manager: the masquerade rules, the delete-then-append
  transaction that puts them in order, and what the resulting chain decides.
 */
module IpTables {
  import opened Base
  import opened Bits
  import opened IpNet

  datatype Match = Marked | Src(negated: bool, net: Net) | Dst(negated: bool, net: Net)

  datatype RuleSpec = RuleSpec(matches: seq<Match>, comment: string, target: string, randomFully: bool)

  /** A rule to be appended to a chain of a table. */
  datatype Rule = Rule(table: string, chain: string, spec: RuleSpec)

  datatype ChainKey = ChainKey(table: string, chain: string)

  type Chains = map<ChainKey, seq<RuleSpec>>

  const POSTRTG := "FLANNEL-POSTRTG"
  const FWD := "FLANNEL-FWD"

  function KeyOf(r: Rule): ChainKey {
    ChainKey(r.table, r.chain)
  }

  /** The last word of a rule as written on the command line. */
  function LastToken(s: RuleSpec): string {
    if s.randomFully then "--random-fully" else s.target
  }

  /** The flannel chain a rule belongs to or jumps to. */
  function FlannelChain(r: Rule): Option<string> {
    var last := LastToken(r.spec);
    if r.chain == FWD || last == FWD then Some(FWD)
    else if r.chain == POSTRTG || last == POSTRTG then Some(POSTRTG)
    else None
  }

  /** Without a flannel chain there is nothing to be missing. */
  predicate FlannelChainExists(chains: Chains, r: Rule) {
    FlannelChain(r).Some? ==> ChainKey(r.table, FlannelChain(r).value) in chains
  }

  predicate Exists(chains: Chains, r: Rule) {
    KeyOf(r) in chains && r.spec in chains[KeyOf(r)]
  }

  // ----- transactions -----

  datatype Op = Delete(chain: string, spec: RuleSpec) | Append(chain: string, spec: RuleSpec)

  type Transaction = map<string, seq<Op>>

  function Push(tx: Transaction, table: string, op: Op): Transaction {
    tx[table := (if table in tx then tx[table] else []) + [op]]
  }

  function ForChain(ops: seq<Op>, chain: string): seq<Op> {
    if ops == [] then []
    else if ops[|ops| - 1].chain == chain then ForChain(ops[..|ops| - 1], chain) + [ops[|ops| - 1]]
    else ForChain(ops[..|ops| - 1], chain)
  }

  /** The operations of a transaction on one chain, in order. */
  function OpsFor(tx: Transaction, key: ChainKey): seq<Op> {
    if key.table in tx then ForChain(tx[key.table], key.chain) else []
  }

  /** The chain without the first occurrence of a rule. */
  function DropFirst(c: seq<RuleSpec>, s: RuleSpec): seq<RuleSpec> {
    DropAt(c, IndexOf(c, s))
  }

  function DropAt(c: seq<RuleSpec>, i: nat): seq<RuleSpec> {
    if i < |c| then c[..i] + c[i + 1..] else c
  }

  /** Deleting a rule that is not there fails. */
  function ApplyOp(c: seq<RuleSpec>, op: Op): Option<seq<RuleSpec>> {
    match op
    case Append(_, s) => Some(c + [s])
    case Delete(_, s) => if s in c then Some(DropFirst(c, s)) else None
  }

  function ApplyOps(c: seq<RuleSpec>, ops: seq<Op>): Option<seq<RuleSpec>> {
    if ops == [] then Some(c)
    else match ApplyOps(c, ops[..|ops| - 1])
      case None => None
      case Some(d) => ApplyOp(d, ops[|ops| - 1])
  }

  predicate Applicable(chains: Chains, tx: Transaction) {
    && (forall t, op :: t in tx && op in tx[t] ==> ChainKey(t, op.chain) in chains)
    && (forall k :: k in chains ==> ApplyOps(chains[k], OpsFor(tx, k)).Some?)
  }

  /** iptables-restore without flush: chains change by their own operations, in order; a failure changes nothing. */
  function Restore(chains: Chains, tx: Transaction): Result<Chains, ()> {
    if Applicable(chains, tx) then Ok(map k | k in chains :: ApplyOps(chains[k], OpsFor(tx, k)).value)
    else Err(())
  }

  // ----- build, bootstrap, ensure, teardown -----

  datatype Build = Build(chains: Chains, tx: Transaction)

  /** A missing flannel chain is created; a rule that exists gets a deletion before its append. */
  function BuildRule(b: Build, r: Rule): Build {
    var chains :=
      if FlannelChain(r).Some? && !FlannelChainExists(b.chains, r)
      then b.chains[ChainKey(r.table, FlannelChain(r).value) := []] else b.chains;
    var tx := if Exists(chains, r) then Push(b.tx, r.table, Delete(r.chain, r.spec)) else b.tx;
    Build(chains, Push(tx, r.table, Append(r.chain, r.spec)))
  }

  function BuildAll(chains: Chains, rules: seq<Rule>): Build {
    if rules == [] then Build(chains, map[])
    else BuildRule(BuildAll(chains, rules[..|rules| - 1]), rules[|rules| - 1])
  }

  function Bootstrapped(chains: Chains, rules: seq<Rule>): Result<Chains, ()> {
    var b := BuildAll(chains, rules);
    Restore(b.chains, b.tx)
  }

  predicate RulesExist(chains: Chains, rules: seq<Rule>) {
    rules == [] || (FlannelChainExists(chains, rules[0]) && Exists(chains, rules[0]) && RulesExist(chains, rules[1..]))
  }

  function Ensured(chains: Chains, rules: seq<Rule>): Result<Chains, ()> {
    if RulesExist(chains, rules) then Ok(chains) else Bootstrapped(chains, rules)
  }

  function Deletions(chains: Chains, rules: seq<Rule>): Transaction {
    if rules == [] then map[]
    else
      var r := rules[|rules| - 1];
      var tx := Deletions(chains, rules[..|rules| - 1]);
      if FlannelChainExists(chains, r) && Exists(chains, r) then Push(tx, r.table, Delete(r.chain, r.spec)) else tx
  }

  function TornDown(chains: Chains, rules: seq<Rule>): Result<Chains, ()> {
    Restore(chains, Deletions(chains, rules))
  }

  /** Kernel state behind the iptables and iptables-restore binaries. */
  class Kernel {
    var chains: Chains

    constructor (chains: Chains)
      ensures this.chains == chains
    {
      this.chains := chains;
    }

    method CleanAndBuild(rules: seq<Rule>) returns (tx: Transaction)
      modifies this
      ensures Build(chains, tx) == BuildAll(old(chains), rules)
    {
      tx := map[];
      for n := 0 to |rules|
        invariant Build(chains, tx) == BuildAll(old(chains), rules[..n])
      {
        assert rules[..n + 1][..n] == rules[..n];
        var rule := rules[n];
        var chain := FlannelChain(rule);
        if chain.Some? && !FlannelChainExists(chains, rule) {
          chains := chains[ChainKey(rule.table, chain.value) := []];
        }
        if Exists(chains, rule) {
          tx := Push(tx, rule.table, Delete(rule.chain, rule.spec));
        }
        tx := Push(tx, rule.table, Append(rule.chain, rule.spec));
      }
      assert rules[..|rules|] == rules;
    }

    method BuildTeardown(rules: seq<Rule>) returns (tx: Transaction)
      ensures tx == Deletions(chains, rules)
    {
      tx := map[];
      for n := 0 to |rules|
        invariant tx == Deletions(chains, rules[..n])
      {
        assert rules[..n + 1][..n] == rules[..n];
        if !FlannelChainExists(chains, rules[n]) {
          continue;
        }
        if Exists(chains, rules[n]) {
          tx := Push(tx, rules[n].table, Delete(rules[n].chain, rules[n].spec));
        }
      }
      assert rules[..|rules|] == rules;
    }

    method ApplyWithoutFlush(tx: Transaction) returns (ok: bool)
      modifies this
      ensures var r := Restore(old(chains), tx); ok == r.Ok? && chains == (if ok then r.value else old(chains))
    {
      var r := Restore(chains, tx);
      ok := r.Ok?;
      if ok {
        chains := r.value;
      }
    }

    /** On failure only the created chains stay behind. */
    method Bootstrap(rules: seq<Rule>) returns (ok: bool)
      modifies this
      ensures var r := Bootstrapped(old(chains), rules);
        ok == r.Ok? && chains == (if ok then r.value else BuildAll(old(chains), rules).chains)
    {
      var tx := CleanAndBuild(rules);
      ok := ApplyWithoutFlush(tx);
    }

    method EnsureIptables(rules: seq<Rule>) returns (ok: bool)
      modifies this
      ensures var r := Ensured(old(chains), rules);
        ok == r.Ok? && chains == (if ok then r.value else BuildAll(old(chains), rules).chains)
    {
      var exist := CheckRulesExist(rules);
      if exist {
        return true;
      }
      ok := Bootstrap(rules);
    }

    method Teardown(rules: seq<Rule>) returns (ok: bool)
      modifies this
      ensures var r := TornDown(old(chains), rules); ok == r.Ok? && chains == (if ok then r.value else old(chains))
    {
      var tx := BuildTeardown(rules);
      ok := ApplyWithoutFlush(tx);
    }

    method CheckRulesExist(rules: seq<Rule>) returns (exist: bool)
      ensures exist == RulesExist(chains, rules)
    {
      for n := 0 to |rules|
        invariant RulesExist(chains, rules) == RulesExist(chains, rules[n..])
      {
        assert rules[n..][1..] == rules[n + 1..];
        if !FlannelChainExists(chains, rules[n]) || !Exists(chains, rules[n]) {
          return false;
        }
      }
      exist := true;
    }
  }

  // ----- the masquerade rules -----

  const COMMENT := "flanneld masq"

  function MasqRule(chain: string, matches: seq<Match>, target: string): Rule {
    Rule("nat", chain, RuleSpec(matches, COMMENT, target, false))
  }

  /** The jump into the flannel chain, then the chain's own rules. */
  function MasqRules(
    cluster: Net, pod: Net, multicast: Net, disableRandomFully: bool, supportsRandomFully: bool): seq<Rule> {
    var randomFully := supportsRandomFully && !disableRandomFully;
    [ MasqRule("POSTROUTING", [], POSTRTG),
      MasqRule(POSTRTG, [Marked], "RETURN"),
      MasqRule(POSTRTG, [Src(false, pod), Dst(false, cluster)], "RETURN"),
      MasqRule(POSTRTG, [Src(false, cluster), Dst(false, pod)], "RETURN"),
      MasqRule(POSTRTG, [Src(true, cluster), Dst(false, pod)], "RETURN"),
      WithRandomFully(MasqRule(POSTRTG, [Src(false, cluster), Dst(true, multicast)], "MASQUERADE"), randomFully),
      WithRandomFully(MasqRule(POSTRTG, [Src(true, cluster), Dst(false, cluster)], "MASQUERADE"), randomFully) ]
  }

  function WithRandomFully(r: Rule, randomFully: bool): Rule {
    r.(spec := r.spec.(randomFully := randomFully))
  }

  datatype Packet = Packet(src: nat, dst: nat, marked: bool)

  predicate MatchHolds(w: nat, m: Match, p: Packet) {
    match m
    case Marked => p.marked
    case Src(negated, net) => Contains(w, net, p.src) != negated
    case Dst(negated, net) => Contains(w, net, p.dst) != negated
  }

  predicate SpecMatches(w: nat, s: RuleSpec, p: Packet) {
    forall m :: m in s.matches ==> MatchHolds(w, m, p)
  }

  /** Target of the first rule of a chain that matches; none if the packet falls through. */
  function Verdict(w: nat, chain: seq<RuleSpec>, p: Packet): Option<string> {
    if chain == [] then None
    else if SpecMatches(w, chain[0], p) then Some(chain[0].target)
    else Verdict(w, chain[1..], p)
  }
}
