/**
  What bootstrap, ensure and teardown leave in every chain, and how the
  masquerade chain decides packets.
 */
module IpTablesOrder {
  import opened Base
  import opened Bits
  import opened IpNet
  import opened IpTables

  /** The wanted rules of one chain, in order. */
  function RulesFor(rules: seq<Rule>, key: ChainKey): seq<RuleSpec> {
    if rules == [] then []
    else
      var r := rules[|rules| - 1];
      var before := RulesFor(rules[..|rules| - 1], key);
      if KeyOf(r) == key then before + [r.spec] else before
  }

  function Content(chains: Chains, key: ChainKey): seq<RuleSpec> {
    if key in chains then chains[key] else []
  }

  /** For every wanted rule of a chain: a deletion if the chain had it, then an append. */
  function ChainOps(c: seq<RuleSpec>, wanted: seq<RuleSpec>, chain: string): seq<Op> {
    if wanted == [] then []
    else
      var w := wanted[|wanted| - 1];
      ChainOps(c, wanted[..|wanted| - 1], chain) + (if w in c then [Delete(chain, w)] else []) + [Append(chain, w)]
  }

  function ChainDeletions(c: seq<RuleSpec>, wanted: seq<RuleSpec>, chain: string): seq<Op> {
    if wanted == [] then []
    else
      var w := wanted[|wanted| - 1];
      ChainDeletions(c, wanted[..|wanted| - 1], chain) + (if w in c then [Delete(chain, w)] else [])
  }

  ghost predicate Distinct(w: seq<RuleSpec>) {
    forall i, j :: 0 <= i < j < |w| ==> w[i] != w[j]
  }

  // ----- the transaction, chain by chain -----

  lemma PushOps(tx: Transaction, table: string, op: Op, key: ChainKey)
    ensures OpsFor(Push(tx, table, op), key) ==
      OpsFor(tx, key) + (if key == ChainKey(table, op.chain) then [op] else [])
  {
    hide ForChain;
    if key.table == table {
      ForChainAppend(if table in tx then tx[table] else [], op, key.chain);
      if table !in tx {
        ForChainEmpty(key.chain);
      }
    } else {
      assert OpsFor(tx, key) + [] == OpsFor(tx, key);
    }
  }

  lemma {:induction false} ForChainEmpty(chain: string)
    ensures ForChain([], chain) == []
  {
  }

  lemma {:induction false} ForChainAppend(ops: seq<Op>, op: Op, chain: string)
    ensures ForChain(ops + [op], chain) == ForChain(ops, chain) + (if op.chain == chain then [op] else [])
  {
    assert (ops + [op])[..|ops|] == ops && (ops + [op])[|ops|] == op;
    assert ForChain(ops, chain) + [] == ForChain(ops, chain);
  }

  /** Some rule of the list belongs to or jumps to the flannel chain `k`, so that the build creates it. */
  ghost predicate Creates(rules: seq<Rule>, k: ChainKey) {
    exists q :: q in rules && FlannelChain(q) == Some(k.chain) && q.table == k.table
  }

  /** What the build leaves before the transaction runs: the old chains, and empty ones where it created them. */
  lemma {:induction false} BuildChains(chains: Chains, rules: seq<Rule>)
    ensures var b := BuildAll(chains, rules);
      && (forall k :: k in b.chains <==> k in chains || Creates(rules, k))
      && (forall k :: k in b.chains ==> b.chains[k] == Content(chains, k))
  {
    if rules == [] {
    } else {
      var n := |rules| - 1;
      assert rules == rules[..n] + [rules[n]];
      BuildChains(chains, rules[..n]);
      BuildChainsStep(chains, rules[..n], rules[n]);
    }
  }

  lemma {:induction false} BuildChainsStep(chains: Chains, p: seq<Rule>, r: Rule)
    requires var b := BuildAll(chains, p).chains;
      && (forall k :: k in b <==> k in chains || Creates(p, k))
      && (forall k :: k in b ==> b[k] == Content(chains, k))
    ensures var b := BuildRule(BuildAll(chains, p), r).chains;
      && (forall k :: k in b <==> k in chains || Creates(p + [r], k))
      && (forall k :: k in b ==> b[k] == Content(chains, k))
  {
    hide Creates, BuildRule, BuildAll;
    BuildRuleChains(BuildAll(chains, p), r);
    forall k
      ensures Creates(p + [r], k) <==> Creates(p, k) || Creates([r], k)
    {
      CreatesStep(p, r, k);
    }
  }

  lemma CreatesStep(p: seq<Rule>, r: Rule, k: ChainKey)
    ensures Creates(p + [r], k) <==> Creates(p, k) || Creates([r], k)
    ensures Creates([r], k) <==> FlannelChain(r) == Some(k.chain) && r.table == k.table
  {
    assert r in [r] && r in p + [r] && forall q :: q in p ==> q in p + [r];
  }

  lemma BuildRuleChains(b: Build, r: Rule)
    ensures var b' := BuildRule(b, r);
      && (forall k :: k in b'.chains <==> k in b.chains || Creates([r], k))
      && (forall k :: k in b'.chains ==> b'.chains[k] == Content(b.chains, k))
  {
    forall k
      ensures Creates([r], k) <==> FlannelChain(r) == Some(k.chain) && r.table == k.table
    {
      CreatesStep([], r, k);
      assert [] + [r] == [r];
    }
    hide Creates, Push, FlannelChain, Exists;
  }

  lemma {:induction false} BuildOps(chains: Chains, rules: seq<Rule>, key: ChainKey)
    ensures OpsFor(BuildAll(chains, rules).tx, key) == ChainOps(Content(chains, key), RulesFor(rules, key), key.chain)
  {
    if rules == [] {
    } else {
      var n := |rules| - 1;
      var r, p := rules[n], rules[..n];
      BuildOps(chains, p, key);
      BuildChains(chains, p);
      BuildChains(chains, rules);
      BuildRuleOps(BuildAll(chains, p), r, key);
      var b := BuildAll(chains, rules);
      assert Exists(b.chains, r) <==> r.spec in Content(chains, KeyOf(r));
      if KeyOf(r) == key {
        assert RulesFor(rules, key)[..|RulesFor(rules, key)| - 1] == RulesFor(p, key);
      }
    }
  }

  lemma BuildRuleOps(b: Build, r: Rule, key: ChainKey)
    ensures var b' := BuildRule(b, r);
      OpsFor(b'.tx, key) ==
      if KeyOf(r) != key then OpsFor(b.tx, key)
      else
        OpsFor(b.tx, key) + (if Exists(b'.chains, r) then [Delete(r.chain, r.spec)] else []) + [Append(r.chain, r.spec)]
  {
    hide OpsFor, Push;
    var b' := BuildRule(b, r);
    var del, app := Delete(r.chain, r.spec), Append(r.chain, r.spec);
    if Exists(b'.chains, r) {
      PushOps(b.tx, r.table, del, key);
      PushOps(Push(b.tx, r.table, del), r.table, app, key);
    } else {
      PushOps(b.tx, r.table, app, key);
    }
    assert OpsFor(b.tx, key) + [] == OpsFor(b.tx, key);
    assert OpsFor(b.tx, key) + [] + [] == OpsFor(b.tx, key);
  }

  ghost predicate Targeted(rules: seq<Rule>, key: ChainKey) {
    exists r :: r in rules && KeyOf(r) == key
  }

  lemma PushTargets(tx: Transaction, table: string, op: Op, t: string, o: Op)
    requires t in Push(tx, table, op) && o in Push(tx, table, op)[t]
    ensures (t in tx && o in tx[t]) || (t == table && o == op)
  {
  }

  /** Every operation of the transaction is on the chain of some rule. */
  lemma {:induction false} BuildTargets(chains: Chains, rules: seq<Rule>, t: string, op: Op)
    requires t in BuildAll(chains, rules).tx && op in BuildAll(chains, rules).tx[t]
    ensures Targeted(rules, ChainKey(t, op.chain))
  {
    var n := |rules| - 1;
    var p, r := rules[..n], rules[n];
    var tx := BuildAll(chains, p).tx;
    assert r in rules && forall x :: x in p ==> x in rules;
    if t in tx && op in tx[t] {
      BuildTargets(chains, p, t, op);
    } else {
      hide Push;
      if Exists(BuildAll(chains, rules).chains, r) {
        PushTargets(Push(tx, r.table, Delete(r.chain, r.spec)), r.table, Append(r.chain, r.spec), t, op);
        if op != Append(r.chain, r.spec) || t != r.table {
          PushTargets(tx, r.table, Delete(r.chain, r.spec), t, op);
        }
      } else {
        PushTargets(tx, r.table, Append(r.chain, r.spec), t, op);
      }
      assert KeyOf(r) == ChainKey(t, op.chain);
    }
  }

  // ----- one chain -----

  /** The chain without the first occurrence of each rule of a list, rules that repeat taken out repeatedly. */
  function WithoutEach(c: seq<RuleSpec>, drop: seq<RuleSpec>): seq<RuleSpec> {
    if drop == [] then c else DropFirst(WithoutEach(c, drop[..|drop| - 1]), drop[|drop| - 1])
  }

  /** The wanted rules that the chain has, in the wanted order: those that get a deletion. */
  function Present(c: seq<RuleSpec>, wanted: seq<RuleSpec>): seq<RuleSpec> {
    if wanted == [] then []
    else
      var w := wanted[|wanted| - 1];
      Present(c, wanted[..|wanted| - 1]) + (if w in c then [w] else [])
  }

  /** The rules of the chain that are not wanted, in their order. */
  function Foreign(c: seq<RuleSpec>, wanted: seq<RuleSpec>): seq<RuleSpec> {
    if c == [] then []
    else if c[|c| - 1] in wanted then Foreign(c[..|c| - 1], wanted)
    else Foreign(c[..|c| - 1], wanted) + [c[|c| - 1]]
  }

  function Count(c: seq<RuleSpec>, x: RuleSpec): nat {
    multiset(c)[x]
  }

  /** A wanted rule that the chain has occurs there as often as it is wanted. */
  ghost predicate SameCounts(c: seq<RuleSpec>, wanted: seq<RuleSpec>) {
    forall w :: w in wanted && w in c ==> Count(c, w) == Count(wanted, w)
  }

  /** A wanted rule that the chain has occurs there at least as often as it is wanted. */
  ghost predicate Enough(c: seq<RuleSpec>, wanted: seq<RuleSpec>) {
    forall w :: w in wanted && w in c ==> Count(wanted, w) <= Count(c, w)
  }

  ghost predicate AtMostOnce(c: seq<RuleSpec>, wanted: seq<RuleSpec>) {
    forall w :: w in wanted ==> Count(c, w) <= 1
  }

  lemma CountAppend(c: seq<RuleSpec>, d: seq<RuleSpec>, x: RuleSpec)
    ensures Count(c + d, x) == Count(c, x) + Count(d, x)
    ensures Count(c, x) > 0 <==> x in c
    ensures Count(d, x) > 0 <==> x in d
  {
  }

  lemma CountOne(s: RuleSpec, x: RuleSpec)
    ensures Count([s], x) == if s == x then 1 else 0
  {
  }

  lemma DropCount(c: seq<RuleSpec>, s: RuleSpec, x: RuleSpec)
    ensures Count(DropFirst(c, s), x) == if x == s && x in c then Count(c, x) - 1 else Count(c, x)
  {
    hide Count;
    var i := IndexOf(c, s);
    CountAppend(c, [], x);
    if i < |c| {
      assert c == c[..i] + ([c[i]] + c[i + 1..]);
      CountAppend(c[..i], [c[i]] + c[i + 1..], x);
      CountAppend([c[i]], c[i + 1..], x);
      CountAppend(c[..i], c[i + 1..], x);
      CountOne(c[i], x);
    }
  }

  lemma {:induction false} WithoutCount(c: seq<RuleSpec>, drop: seq<RuleSpec>, x: RuleSpec)
    ensures Count(WithoutEach(c, drop), x) == if Count(c, x) > Count(drop, x) then Count(c, x) - Count(drop, x) else 0
  {
    hide DropFirst;
    if drop == [] {
    } else {
      var n := |drop| - 1;
      var d := WithoutEach(c, drop[..n]);
      WithoutCount(c, drop[..n], x);
      DropCount(d, drop[n], x);
      hide Count;
      CountAppend(d, [], x);
      assert drop == drop[..n] + [drop[n]];
      CountAppend(drop[..n], [drop[n]], x);
      CountOne(drop[n], x);
    }
  }

  lemma {:induction false} PresentCount(c: seq<RuleSpec>, wanted: seq<RuleSpec>, x: RuleSpec)
    ensures Count(Present(c, wanted), x) == if x in c then Count(wanted, x) else 0
  {
    if wanted == [] {
    } else {
      var n := |wanted| - 1;
      var p, w := wanted[..n], wanted[n];
      PresentCount(c, p, x);
      assert wanted == p + [w];
      hide Count;
      CountAppend(p, [w], x);
      CountAppend(Present(c, p), [w], x);
      CountOne(w, x);
      assert Present(c, p) + [] == Present(c, p);
    }
  }

  lemma {:induction false} DistinctCount(w: seq<RuleSpec>, x: RuleSpec)
    requires Distinct(w)
    ensures Count(w, x) == if x in w then 1 else 0
    decreases |w|
  {
    if w == [] {
    } else {
      var n := |w| - 1;
      assert w == w[..n] + [w[n]];
      DistinctCount(w[..n], x);
    }
  }

  /** For a list without repetition the counts agree exactly when no wanted rule occurs twice. */
  lemma SameCountsOfDistinct(c: seq<RuleSpec>, wanted: seq<RuleSpec>)
    requires Distinct(wanted)
    ensures SameCounts(c, wanted) <==> AtMostOnce(c, wanted)
  {
    hide Count, Distinct;
    forall w | w in wanted
      ensures Count(wanted, w) == 1 && (Count(c, w) > 0 <==> w in c)
    {
      DistinctCount(wanted, w);
      CountAppend(c, [], w);
    }
  }

  lemma DropFromFront(a: seq<RuleSpec>, b: seq<RuleSpec>, s: RuleSpec)
    requires s in a
    ensures DropFirst(a + b, s) == DropFirst(a, s) + b
  {
    var i, j := IndexOf(a, s), IndexOf(a + b, s);
    assert i < |a| && (a + b)[i] == s;
    assert j <= i && (a + b)[j] == a[j];
    assert i == j;
    assert (a + b)[..i] + (a + b)[i + 1..] == a[..i] + a[i + 1..] + b;
  }

  /** As long as the front has enough of every dropped rule, what follows stays. */
  lemma {:induction false} WithoutFromFront(a: seq<RuleSpec>, b: seq<RuleSpec>, drop: seq<RuleSpec>)
    requires forall x :: x in drop ==> Count(drop, x) <= Count(a, x)
    ensures WithoutEach(a + b, drop) == WithoutEach(a, drop) + b
  {
    if drop == [] {
    } else {
      var n := |drop| - 1;
      var p, w := drop[..n], drop[n];
      assert drop == p + [w];
      hide DropFirst;
      CountOne(w, w);
      CountAppend(p, [w], w);
      forall x | x in p
        ensures Count(p, x) <= Count(a, x)
      {
        CountAppend(p, [w], x);
        assert x in drop;
      }
      hide Count;
      WithoutFromFront(a, b, p);
      WithoutCount(a, p, w);
      CountAppend(WithoutEach(a, p), [], w);
      DropFromFront(WithoutEach(a, p), b, w);
    }
  }

  /**
    Delete-then-append on one chain: the wanted rules are put after the chain,
    and each one that the chain had goes once from where it came first.
   */
  lemma {:induction false} ChainOpsResult(c: seq<RuleSpec>, wanted: seq<RuleSpec>, chain: string)
    ensures ApplyOps(c, ChainOps(c, wanted, chain)) == Some(WithoutEach(c + wanted, Present(c, wanted)))
  {
    if wanted == [] {
      assert c + [] == c;
    } else {
      var n := |wanted| - 1;
      var p, w := wanted[..n], wanted[n];
      assert wanted == p + [w];
      ChainOpsResult(c, p, chain);
      ChainOpsStep(c, p, w, chain);
    }
  }

  lemma {:induction false} ChainOpsStep(c: seq<RuleSpec>, p: seq<RuleSpec>, w: RuleSpec, chain: string)
    requires ApplyOps(c, ChainOps(c, p, chain)) == Some(WithoutEach(c + p, Present(c, p)))
    ensures ApplyOps(c, ChainOps(c, p + [w], chain)) == Some(WithoutEach(c + (p + [w]), Present(c, p + [w])))
  {
    hide WithoutEach, ChainOps, ApplyOps, DropFirst, Count, Present;
    var drop := Present(c, p);
    var a, ops, app, del := WithoutEach(c + p, drop), ChainOps(c, p, chain), Append(chain, w), Delete(chain, w);
    Unfolded(c, p, w, chain);
    assert c + (p + [w]) == (c + p) + [w];
    forall x | x in drop
      ensures Count(drop, x) <= Count(c + p, x)
    {
      PresentCount(c, p, x);
      CountAppend(c, p, x);
      CountAppend(drop, [], x);
    }
    WithoutFromFront(c + p, [w], drop);
    if w in c {
      StillThere(c, p, w);
      DropFromFront(a, [w], w);
      WithoutOneMore(c + (p + [w]), drop, w);
      ApplyTwo(c, ops, del, app);
    } else {
      ApplyOne(c, ops, app);
      assert ops + [] + [app] == ops + [app];
      assert drop + [] == drop;
    }
  }

  /** However often it was deleted and appended before, a rule that the chain had is there. */
  lemma {:induction false} StillThere(c: seq<RuleSpec>, p: seq<RuleSpec>, w: RuleSpec)
    requires w in c
    ensures w in WithoutEach(c + p, Present(c, p))
  {
    hide WithoutEach, Count, Present;
    WithoutCount(c + p, Present(c, p), w);
    PresentCount(c, p, w);
    CountAppend(c, p, w);
    CountAppend(WithoutEach(c + p, Present(c, p)), [], w);
  }

  lemma {:induction false} WithoutOneMore(c: seq<RuleSpec>, drop: seq<RuleSpec>, w: RuleSpec)
    ensures WithoutEach(c, drop + [w]) == DropFirst(WithoutEach(c, drop), w)
  {
    hide DropFirst;
    assert (drop + [w])[..|drop|] == drop;
  }

  lemma {:induction false} Unfolded(c: seq<RuleSpec>, p: seq<RuleSpec>, w: RuleSpec, chain: string)
    ensures Present(c, p + [w]) == Present(c, p) + (if w in c then [w] else [])
    ensures ChainOps(c, p + [w], chain) ==
      ChainOps(c, p, chain) + (if w in c then [Delete(chain, w)] else []) + [Append(chain, w)]
    ensures ChainDeletions(c, p + [w], chain) ==
      ChainDeletions(c, p, chain) + (if w in c then [Delete(chain, w)] else [])
  {
    assert (p + [w])[..|p|] == p;
  }

  lemma {:induction false} ApplyOne(c: seq<RuleSpec>, ops: seq<Op>, op: Op)
    ensures ApplyOps(c, ops + [op]) ==
      match ApplyOps(c, ops)
      case None => None
      case Some(d) => ApplyOp(d, op)
  {
    assert (ops + [op])[..|ops|] == ops;
  }

  lemma {:induction false} ApplyTwo(c: seq<RuleSpec>, ops: seq<Op>, o1: Op, o2: Op)
    requires ApplyOps(c, ops).Some? && ApplyOp(ApplyOps(c, ops).value, o1).Some?
    ensures ApplyOps(c, ops + [o1] + [o2]) == ApplyOp(ApplyOp(ApplyOps(c, ops).value, o1).value, o2)
  {
    ApplyOne(c, ops, o1);
    ApplyOne(c, ops + [o1], o2);
  }

  /** Deletions alone go through exactly when the chain has enough of every rule. */
  lemma {:induction false} ChainDeletionsResult(c: seq<RuleSpec>, wanted: seq<RuleSpec>, chain: string)
    ensures ApplyOps(c, ChainDeletions(c, wanted, chain)) ==
      if Enough(c, wanted) then Some(WithoutEach(c, Present(c, wanted))) else None
  {
    if wanted == [] {
    } else {
      var n := |wanted| - 1;
      var p, w := wanted[..n], wanted[n];
      assert wanted == p + [w];
      ChainDeletionsResult(c, p, chain);
      EnoughStep(c, p, w);
      hide WithoutEach, ChainDeletions, ApplyOps, Count, Present, Enough;
      Unfolded(c, p, w, chain);
      if w in c {
        ApplyOne(c, ChainDeletions(c, p, chain), Delete(chain, w));
        WithoutOneMore(c, Present(c, p), w);
      } else {
        assert ChainDeletions(c, p, chain) + [] == ChainDeletions(c, p, chain);
        assert Present(c, p) + [] == Present(c, p);
      }
    }
  }

  lemma {:induction false} EnoughStep(c: seq<RuleSpec>, p: seq<RuleSpec>, w: RuleSpec)
    ensures Enough(c, p + [w]) <==> Enough(c, p) && (w in c ==> w in WithoutEach(c, Present(c, p)))
  {
    hide WithoutEach, Count, Present;
    PresentCount(c, p, w);
    WithoutCount(c, Present(c, p), w);
    CountAppend(WithoutEach(c, Present(c, p)), c, w);
    forall x
      ensures Count(p + [w], x) == Count(p, x) + (if x == w then 1 else 0)
      ensures Count(p, x) > 0 <==> x in p
    {
      CountAppend(p, [w], x);
      CountOne(w, x);
    }
  }

  // ----- the foreign part -----

  lemma {:induction false} ForeignAppend(c: seq<RuleSpec>, x: RuleSpec, p: seq<RuleSpec>)
    ensures Foreign(c + [x], p) == Foreign(c, p) + (if x in p then [] else [x])
  {
    assert (c + [x])[..|c|] == c;
    assert Foreign(c, p) + [] == Foreign(c, p);
  }

  lemma {:induction false} ForeignOfConcat(a: seq<RuleSpec>, b: seq<RuleSpec>, wanted: seq<RuleSpec>)
    ensures Foreign(a + b, wanted) == Foreign(a, wanted) + Foreign(b, wanted)
  {
    if b == [] {
      assert a + b == a && Foreign(a, wanted) + [] == Foreign(a, wanted);
    } else {
      var n := |b| - 1;
      ForeignOfConcat(a, b[..n], wanted);
      assert (a + b)[..|a + b| - 1] == a + b[..n] && (a + b)[|a + b| - 1] == b[n];
    }
  }

  lemma {:induction false} ForeignMembers(c: seq<RuleSpec>, wanted: seq<RuleSpec>, x: RuleSpec)
    ensures x in Foreign(c, wanted) <==> x in c && x !in wanted
  {
    if c == [] {
    } else {
      var n := |c| - 1;
      assert c == c[..n] + [c[n]];
      ForeignMembers(c[..n], wanted, x);
    }
  }

  lemma {:induction false} ForeignOfNone(c: seq<RuleSpec>, wanted: seq<RuleSpec>)
    requires forall x :: x in c ==> x !in wanted
    ensures Foreign(c, wanted) == c
  {
    if c == [] {
    } else {
      assert c[|c| - 1] in c;
      ForeignOfNone(c[..|c| - 1], wanted);
    }
  }

  lemma {:induction false} ForeignOfWanted(c: seq<RuleSpec>, wanted: seq<RuleSpec>)
    requires forall s :: s in c ==> s in wanted
    ensures Foreign(c, wanted) == []
  {
    if c == [] {
    } else {
      assert c[|c| - 1] in c;
      ForeignOfWanted(c[..|c| - 1], wanted);
    }
  }

  lemma {:induction false} ForeignOfDrop(c: seq<RuleSpec>, w: RuleSpec, wanted: seq<RuleSpec>)
    requires w in wanted
    ensures Foreign(DropFirst(c, w), wanted) == Foreign(c, wanted)
  {
    var i := IndexOf(c, w);
    if i < |c| {
      assert c == c[..i] + [w] + c[i + 1..];
      ForeignOfConcat(c[..i], c[i + 1..], wanted);
      ForeignOfConcat(c[..i] + [w], c[i + 1..], wanted);
      ForeignAppend(c[..i], w, wanted);
    }
  }

  lemma {:induction false} ForeignOfWithout(c: seq<RuleSpec>, drop: seq<RuleSpec>, wanted: seq<RuleSpec>)
    requires forall x :: x in drop ==> x in wanted
    ensures Foreign(WithoutEach(c, drop), wanted) == Foreign(c, wanted)
    decreases |drop|
  {
    if drop == [] {
    } else {
      hide Foreign;
      var n := |drop| - 1;
      assert drop[n] in drop;
      ForeignOfWithout(c, drop[..n], wanted);
      ForeignOfDrop(WithoutEach(c, drop[..n]), drop[n], wanted);
    }
  }

  lemma {:induction false} PresentMembers(c: seq<RuleSpec>, wanted: seq<RuleSpec>, x: RuleSpec)
    ensures x in Present(c, wanted) <==> x in c && x in wanted
  {
    hide Count, Present;
    PresentCount(c, wanted, x);
    CountAppend(wanted, Present(c, wanted), x);
  }

  /** With equal counts the deletions leave exactly the foreign rules. */
  lemma {:induction false} WithoutPresentIsForeign(c: seq<RuleSpec>, wanted: seq<RuleSpec>)
    requires SameCounts(c, wanted)
    ensures WithoutEach(c, Present(c, wanted)) == Foreign(c, wanted)
  {
    var drop := Present(c, wanted);
    var rest := WithoutEach(c, drop);
    hide WithoutEach, Count, Present, Foreign;
    forall x
      ensures x in drop <==> x in c && x in wanted
      ensures x in rest ==> x !in wanted
    {
      PresentMembers(c, wanted, x);
      PresentCount(c, wanted, x);
      WithoutCount(c, drop, x);
      CountAppend(rest, c, x);
    }
    ForeignOfWithout(c, drop, wanted);
    ForeignOfNone(rest, wanted);
  }

  /** What deletions leave is the foreign rules if and only if the counts agree. */
  lemma {:induction false} DeletedIsForeign(c: seq<RuleSpec>, wanted: seq<RuleSpec>)
    requires Enough(c, wanted)
    ensures WithoutEach(c, Present(c, wanted)) == Foreign(c, wanted) <==> SameCounts(c, wanted)
  {
    hide WithoutEach, Count, Present, Foreign;
    if SameCounts(c, wanted) {
      WithoutPresentIsForeign(c, wanted);
    } else {
      var w :| w in wanted && w in c && Count(c, w) != Count(wanted, w);
      PresentCount(c, wanted, w);
      WithoutCount(c, Present(c, wanted), w);
      CountAppend(WithoutEach(c, Present(c, wanted)), [], w);
      ForeignMembers(c, wanted, w);
    }
  }

  /** What delete-then-append leaves is the foreign rules and then the wanted ones if and only if the counts agree. */
  lemma {:induction false} OrderedExactly(c: seq<RuleSpec>, wanted: seq<RuleSpec>)
    ensures WithoutEach(c + wanted, Present(c, wanted)) == Foreign(c, wanted) + wanted <==> SameCounts(c, wanted)
  {
    var drop := Present(c, wanted);
    hide WithoutEach, Count, Present, Foreign;
    if SameCounts(c, wanted) {
      forall x | x in drop
        ensures Count(drop, x) <= Count(c, x)
      {
        PresentCount(c, wanted, x);
        PresentMembers(c, wanted, x);
      }
      WithoutFromFront(c, wanted, drop);
      WithoutPresentIsForeign(c, wanted);
    } else {
      var w :| w in wanted && w in c && Count(c, w) != Count(wanted, w);
      OrderedCount(c, wanted, w);
    }
  }

  lemma {:induction false} OrderedCount(c: seq<RuleSpec>, wanted: seq<RuleSpec>, w: RuleSpec)
    requires w in wanted && w in c
    ensures Count(WithoutEach(c + wanted, Present(c, wanted)), w) == Count(c, w)
    ensures Count(Foreign(c, wanted) + wanted, w) == Count(wanted, w)
  {
    hide WithoutEach, Count, Present, Foreign;
    PresentCount(c, wanted, w);
    CountAppend(c, wanted, w);
    WithoutCount(c + wanted, Present(c, wanted), w);
    ForeignMembers(c, wanted, w);
    CountAppend(Foreign(c, wanted), wanted, w);
  }

  /** A chain in order has the counts of the wanted rules and the same foreign part. */
  lemma {:induction false} OrderedIsFixed(c: seq<RuleSpec>, wanted: seq<RuleSpec>)
    ensures var done := Foreign(c, wanted) + wanted;
      SameCounts(done, wanted) && Foreign(done, wanted) == Foreign(c, wanted)
  {
    var f := Foreign(c, wanted);
    ForeignOfConcat(f, wanted, wanted);
    ForeignOfWanted(wanted, wanted);
    hide Count, Foreign;
    forall x
      ensures x in f ==> x !in wanted
      ensures x in wanted ==> Count(f + wanted, x) == Count(wanted, x)
    {
      ForeignMembers(c, wanted, x);
      CountAppend(f, wanted, x);
    }
    ForeignOfNone(f, wanted);
    assert f + [] == f;
  }

  // ----- bootstrap -----

  ghost predicate DistinctRules(rules: seq<Rule>) {
    forall i, j :: 0 <= i < j < |rules| ==> rules[i] != rules[j]
  }

  lemma {:induction false} RulesForMembers(rules: seq<Rule>, key: ChainKey)
    ensures forall s :: s in RulesFor(rules, key) <==> Rule(key.table, key.chain, s) in rules
  {
    if rules == [] {
    } else {
      RulesForMembers(rules[..|rules| - 1], key);
      assert rules == rules[..|rules| - 1] + [rules[|rules| - 1]];
    }
  }

  lemma {:induction false} RulesForDistinct(rules: seq<Rule>, key: ChainKey)
    requires DistinctRules(rules)
    ensures Distinct(RulesFor(rules, key))
  {
    if rules == [] {
    } else {
      var n := |rules| - 1;
      RulesForDistinct(rules[..n], key);
      RulesForMembers(rules[..n], key);
      var before := RulesFor(rules[..n], key);
      assert rules[n] !in rules[..n];
      assert KeyOf(rules[n]) == key ==> rules[n] == Rule(key.table, key.chain, rules[n].spec);
      assert forall i :: 0 <= i < |before| ==> before[i] in before;
    }
  }

  /** The chain of every rule is there, or is a flannel chain that the build creates. */
  ghost predicate ChainsAvailable(chains: Chains, rules: seq<Rule>) {
    forall r :: r in rules ==> KeyOf(r) in chains || Creates(rules, KeyOf(r))
  }

  /** Every chain has the wanted rules as often as they are wanted, or not at all. */
  ghost predicate AllSameCounts(chains: Chains, rules: seq<Rule>) {
    forall k :: k in chains ==> SameCounts(chains[k], RulesFor(rules, k))
  }

  lemma {:induction false} BuildAppends(chains: Chains, rules: seq<Rule>, r: Rule)
    requires r in rules
    ensures var tx := BuildAll(chains, rules).tx; r.table in tx && Append(r.chain, r.spec) in tx[r.table]
  {
    hide BuildRule;
    var n := |rules| - 1;
    assert rules == rules[..n] + [rules[n]];
    BuildRuleAppends(BuildAll(chains, rules[..n]), rules[n], r.table, Append(r.chain, r.spec));
    if r in rules[..n] {
      BuildAppends(chains, rules[..n], r);
    }
  }

  lemma BuildRuleAppends(b: Build, r: Rule, t: string, op: Op)
    ensures var tx := BuildRule(b, r).tx;
      && r.table in tx && Append(r.chain, r.spec) in tx[r.table]
      && (t in b.tx && op in b.tx[t] ==> t in tx && op in tx[t])
  {
    hide FlannelChain, Exists, Push;
    var del, app := Delete(r.chain, r.spec), Append(r.chain, r.spec);
    PushHas(b.tx, r.table, app, t, op);
    PushHas(b.tx, r.table, del, t, op);
    PushHas(Push(b.tx, r.table, del), r.table, app, t, op);
  }

  lemma PushHas(tx: Transaction, table: string, o: Op, t: string, op: Op)
    ensures table in Push(tx, table, o) && o in Push(tx, table, o)[table]
    ensures t in tx && op in tx[t] ==> t in Push(tx, table, o) && op in Push(tx, table, o)[t]
  {
    var ops := (if table in tx then tx[table] else []) + [o];
    assert ops[|ops| - 1] == o;
  }

  /** Bootstrap succeeds if and only if the chain of every rule is there or gets created. */
  lemma BootstrapSucceeds(chains: Chains, rules: seq<Rule>)
    ensures Bootstrapped(chains, rules).Ok? <==> ChainsAvailable(chains, rules)
  {
    hide BuildAll, OpsFor, ApplyOps, ChainOps, RulesFor, WithoutEach, Present, Creates;
    var b := BuildAll(chains, rules);
    BuildChains(chains, rules);
    if ChainsAvailable(chains, rules) {
      forall t, op: Op | t in b.tx && op in b.tx[t]
        ensures ChainKey(t, op.chain) in b.chains
      {
        BuildTargets(chains, rules, t, op);
        var r :| r in rules && KeyOf(r) == ChainKey(t, op.chain);
      }
      forall k | k in b.chains
        ensures ApplyOps(b.chains[k], OpsFor(b.tx, k)).Some?
      {
        BuildOps(chains, rules, k);
        ChainOpsResult(Content(chains, k), RulesFor(rules, k), k.chain);
      }
    } else {
      var r :| r in rules && KeyOf(r) !in chains && !Creates(rules, KeyOf(r));
      BuildAppends(chains, rules, r);
      assert ChainKey(r.table, Append(r.chain, r.spec).chain) !in b.chains;
    }
  }

  /**
    From any state and for any list of rules: bootstrap keeps all chains, adds the
    missing flannel chains and nothing else.  Every chain then is its old content
    followed by its wanted rules, less one first occurrence for each wanted rule
    it had.  That is its foreign rules in their old order followed by the
    wanted rules in theirs if and only if the counts agreed.
   */
  lemma {:induction false} BootstrapOrders(chains: Chains, rules: seq<Rule>, key: ChainKey)
    requires ChainsAvailable(chains, rules)
    ensures var r := Bootstrapped(chains, rules);
      && r.Ok? && (key in r.value <==> key in chains || Creates(rules, key))
      && (key in r.value ==>
            var c, wanted := Content(chains, key), RulesFor(rules, key);
            && r.value[key] == WithoutEach(c + wanted, Present(c, wanted))
            && (r.value[key] == Foreign(c, wanted) + wanted <==> SameCounts(c, wanted)))
  {
    hide BuildAll, OpsFor, ApplyOps, ChainOps, RulesFor, WithoutEach, Present, Foreign, SameCounts, Applicable, Creates,
         ChainsAvailable;
    BuildChains(chains, rules);
    BootstrapSucceeds(chains, rules);
    BuildOps(chains, rules, key);
    var c, wanted := Content(chains, key), RulesFor(rules, key);
    ChainOpsResult(c, wanted, key.chain);
    OrderedExactly(c, wanted);
  }

  /** For rules without repetition: the wanted order if and only if no wanted rule occurred twice. */
  lemma {:induction false} BootstrapOfDistinct(chains: Chains, rules: seq<Rule>, key: ChainKey)
    requires ChainsAvailable(chains, rules) && DistinctRules(rules)
    ensures var r := Bootstrapped(chains, rules);
      && r.Ok?
      && (key in r.value ==>
            var c, wanted := Content(chains, key), RulesFor(rules, key);
            && Distinct(wanted)
            && (r.value[key] == Foreign(c, wanted) + wanted <==> AtMostOnce(c, wanted)))
  {
    hide Bootstrapped, RulesFor, Foreign, SameCounts, AtMostOnce, Distinct, DistinctRules, ChainsAvailable, Creates;
    BootstrapOrders(chains, rules, key);
    RulesForDistinct(rules, key);
    SameCountsOfDistinct(Content(chains, key), RulesFor(rules, key));
  }

  /** Where the counts agree a second bootstrap changes nothing. */
  lemma BootstrapIsStable(chains: Chains, rules: seq<Rule>)
    requires ChainsAvailable(chains, rules) && AllSameCounts(chains, rules)
    ensures Bootstrapped(chains, rules).Ok?
    ensures var once := Bootstrapped(chains, rules).value;
      AllSameCounts(once, rules) && Bootstrapped(once, rules) == Ok(once)
  {
    hide Bootstrapped, RulesFor, Foreign, SameCounts, WithoutEach, Present, Creates;
    BootstrapSucceeds(chains, rules);
    var once := Bootstrapped(chains, rules).value;
    forall k
      ensures k in once <==> k in chains || Creates(rules, k)
      ensures k in once ==> SameCounts(once[k], RulesFor(rules, k))
      ensures k in once ==> Foreign(once[k], RulesFor(rules, k)) + RulesFor(rules, k) == once[k]
    {
      BootstrapOrders(chains, rules, k);
      if k !in chains {
        NothingCounts(RulesFor(rules, k));
      }
      OrderedIsFixed(Content(chains, k), RulesFor(rules, k));
    }
    BootstrapSucceeds(once, rules);
    var twice := Bootstrapped(once, rules).value;
    forall k
      ensures k in twice <==> k in once
      ensures k in twice ==> twice[k] == once[k]
    {
      BootstrapOrders(once, rules, k);
    }
    assert twice == once;
  }

  lemma NothingCounts(wanted: seq<RuleSpec>)
    ensures SameCounts([], wanted)
  {
  }

  // ----- chains that bootstrap leaves as they are -----

  /** What delete-then-append makes of a chain. */
  function Turned(c: seq<RuleSpec>, wanted: seq<RuleSpec>): seq<RuleSpec> {
    WithoutEach(c + wanted, Present(c, wanted))
  }

  /** The wanted rules of the chain, in the chain's order. */
  function Own(c: seq<RuleSpec>, wanted: seq<RuleSpec>): seq<RuleSpec> {
    if c == [] then []
    else if c[|c| - 1] in wanted then Own(c[..|c| - 1], wanted) + [c[|c| - 1]]
    else Own(c[..|c| - 1], wanted)
  }

  /** Foreign rules first, and then wanted ones in an order that turning over does not change. */
  predicate Settled(c: seq<RuleSpec>, wanted: seq<RuleSpec>) {
    c == Foreign(c, wanted) + Own(c, wanted) && Turned(Own(c, wanted), wanted) == Own(c, wanted)
  }

  /** Dropping rules around one that is not dropped: what is before it and what is behind it stay apart. */
  lemma {:induction false} WithoutAround(a: seq<RuleSpec>, f: RuleSpec, b: seq<RuleSpec>, drop: seq<RuleSpec>)
    returns (rest: seq<RuleSpec>)
    requires f !in drop
    ensures WithoutEach(a + [f] + b, drop) == WithoutEach(a, drop) + [f] + rest
    ensures forall x :: x in rest ==> x in b
    decreases |drop|
  {
    hide DropFirst;
    if drop == [] {
      rest := b;
    } else {
      var n := |drop| - 1;
      assert drop[n] in drop && f !in drop[..n];
      var r := WithoutAround(a, f, b, drop[..n]);
      var front, w := WithoutEach(a, drop[..n]), drop[n];
      rest := DropAround(front, f, r, w);
    }
  }

  lemma DropAround(a: seq<RuleSpec>, f: RuleSpec, b: seq<RuleSpec>, w: RuleSpec) returns (rest: seq<RuleSpec>)
    requires f != w
    ensures DropFirst(a + [f] + b, w) == DropFirst(a, w) + [f] + rest
    ensures forall x :: x in rest ==> x in b
  {
    if w in a {
      rest := b;
      DropFromFront(a, [f] + b, w);
      assert a + [f] + b == a + ([f] + b) && DropFirst(a, w) + ([f] + b) == DropFirst(a, w) + [f] + b;
    } else {
      rest := DropFirst(b, w);
      DropAbsent(a, w);
      DropFromBack(a + [f], b, w);
    }
  }

  lemma DropAbsent(c: seq<RuleSpec>, s: RuleSpec)
    requires s !in c
    ensures DropFirst(c, s) == c
  {
    assert forall j :: 0 <= j < |c| ==> c[j] in c;
  }

  lemma IndexFromBack(a: seq<RuleSpec>, b: seq<RuleSpec>, w: RuleSpec)
    requires w !in a
    ensures IndexOf(a + b, w) == |a| + IndexOf(b, w)
  {
    var i, j := IndexOf(a + b, w), IndexOf(b, w);
    assert forall k :: 0 <= k < |a| ==> (a + b)[k] == a[k];
    assert forall k :: 0 <= k < |b| ==> (a + b)[|a| + k] == b[k];
    assert i < |a| + j || |a| + j < i || i == |a| + j;
  }

  lemma DropFromBack(a: seq<RuleSpec>, b: seq<RuleSpec>, w: RuleSpec)
    requires w !in a
    ensures DropFirst(a + b, w) == a + DropFirst(b, w)
  {
    hide DropAt;
    IndexFromBack(a, b, w);
    DropAtBack(a, b, IndexOf(b, w));
  }

  lemma DropAtBack(a: seq<RuleSpec>, b: seq<RuleSpec>, j: nat)
    requires j <= |b|
    ensures DropAt(a + b, |a| + j) == a + DropAt(b, j)
  {
    if j < |b| {
      assert (a + b)[..|a| + j] == a + b[..j];
      assert (a + b)[|a| + j + 1..] == b[j + 1..];
    }
  }

  lemma {:induction false} WithoutFromBack(a: seq<RuleSpec>, b: seq<RuleSpec>, drop: seq<RuleSpec>)
    requires forall x :: x in drop ==> x !in a
    ensures WithoutEach(a + b, drop) == a + WithoutEach(b, drop)
    decreases |drop|
  {
    hide DropFirst;
    if drop == [] {
    } else {
      var n := |drop| - 1;
      assert drop[n] in drop;
      WithoutFromBack(a, b, drop[..n]);
      DropFromBack(a, WithoutEach(b, drop[..n]), drop[n]);
    }
  }

  /** A foreign part followed by wanted rules is split into the two by the filters. */
  lemma {:induction false} SplitFilters(a: seq<RuleSpec>, b: seq<RuleSpec>, wanted: seq<RuleSpec>)
    requires (forall x :: x in a ==> x !in wanted) && (forall x :: x in b ==> x in wanted)
    ensures Foreign(a + b, wanted) == a && Own(a + b, wanted) == b
  {
    ForeignOfConcat(a, b, wanted);
    ForeignOfNone(a, wanted);
    ForeignOfWanted(b, wanted);
    OwnOfSplit(a, b, wanted);
    hide Foreign, Own;
    assert a + [] == a;
  }

  lemma {:induction false} OwnOfSplit(a: seq<RuleSpec>, b: seq<RuleSpec>, wanted: seq<RuleSpec>)
    requires (forall x :: x in a ==> x !in wanted) && (forall x :: x in b ==> x in wanted)
    ensures Own(a + b, wanted) == b
    decreases |a| + |b|
  {
    if b != [] {
      var n := |b| - 1;
      assert b[n] in b && (a + b)[..|a + b| - 1] == a + b[..n];
      OwnOfSplit(a, b[..n], wanted);
    } else if a != [] {
      var n := |a| - 1;
      assert a[n] in a && a + b == a && a[..n] + [] == a[..n];
      OwnOfSplit(a[..n], [], wanted);
    }
  }

  lemma {:induction false} PresentOfTail(a: seq<RuleSpec>, b: seq<RuleSpec>, wanted: seq<RuleSpec>)
    requires forall x :: x in a ==> x !in wanted
    ensures Present(a + b, wanted) == Present(b, wanted)
  {
    if wanted == [] {
    } else {
      var n := |wanted| - 1;
      assert wanted[n] in wanted;
      PresentOfTail(a, b, wanted[..n]);
    }
  }

  /** Foreign rules in front stay where they are. */
  lemma TurnedTail(a: seq<RuleSpec>, b: seq<RuleSpec>, wanted: seq<RuleSpec>)
    requires forall x :: x in a ==> x !in wanted
    ensures Turned(a + b, wanted) == a + Turned(b, wanted)
  {
    hide WithoutEach, Present;
    PresentOfTail(a, b, wanted);
    var drop := Present(b, wanted);
    forall x | x in drop
      ensures x !in a
    {
      PresentMembers(b, wanted, x);
    }
    WithoutFromBack(a, b + wanted, drop);
    assert a + b + wanted == a + (b + wanted);
  }

  /** Index of the last foreign rule. */
  lemma {:induction false} LastForeign(c: seq<RuleSpec>, wanted: seq<RuleSpec>) returns (n: nat)
    requires exists x :: x in c && x !in wanted
    ensures n < |c| && c[n] !in wanted && forall j :: n < j < |c| ==> c[j] in wanted
    decreases |c|
  {
    var k := |c| - 1;
    if c[k] !in wanted {
      n := k;
    } else {
      assert c == c[..k] + [c[k]];
      n := LastForeign(c[..k], wanted);
    }
  }

  /** In a chain that is not changed no wanted rule stands before a foreign one. */
  lemma UnchangedBefore(a: seq<RuleSpec>, f: RuleSpec, b: seq<RuleSpec>, wanted: seq<RuleSpec>)
    requires f !in wanted && (forall x :: x in b ==> x in wanted)
    requires Turned(a + [f] + b, wanted) == a + [f] + b
    ensures forall x :: x in a ==> x !in wanted
  {
    hide WithoutEach, Present, Count;
    var c := a + [f] + b;
    var drop := Present(c, wanted);
    PresentMembers(c, wanted, f);
    var rest := WithoutAround(a, f, b + wanted, drop);
    assert c + wanted == a + [f] + (b + wanted);
    SameFront(WithoutEach(a, drop), a, f, rest, b, wanted);
    forall x | x in a
      ensures x !in wanted
    {
      if x in wanted {
        PresentMembers(c, wanted, x);
        WithoutCount(a, drop, x);
        CountAppend(a, drop, x);
      }
    }
  }

  /** Two decompositions around the last foreign rule have the same front. */
  lemma SameFront(
    a: seq<RuleSpec>, a': seq<RuleSpec>, f: RuleSpec, b: seq<RuleSpec>, b': seq<RuleSpec>, wanted: seq<RuleSpec>)
    requires a + [f] + b == a' + [f] + b' && f !in wanted
    requires (forall x :: x in b ==> x in wanted) && (forall x :: x in b' ==> x in wanted)
    ensures a == a'
  {
    var c := a + [f] + b;
    assert c[|a|] == f && c[|a'|] == f;
    assert |a| == |a'|;
    assert a == c[..|a|] && a' == c[..|a'|];
  }

  /** A chain stays as it is if and only if it is settled. */
  lemma {:induction false} UnchangedExactly(c: seq<RuleSpec>, wanted: seq<RuleSpec>)
    ensures Turned(c, wanted) == c <==> Settled(c, wanted)
  {
    hide Turned, Foreign, Own;
    if Settled(c, wanted) {
      var a, b := Foreign(c, wanted), Own(c, wanted);
      ForeignApart(c, wanted);
      TurnedTail(a, b, wanted);
    }
    if Turned(c, wanted) == c {
      var a, b := ForeignFirst(c, wanted);
      SplitFilters(a, b, wanted);
      TurnedTail(a, b, wanted);
      assert Turned(b, wanted) == (a + Turned(b, wanted))[|a|..] && b == c[|a|..];
    }
  }

  lemma {:induction false} ForeignApart(c: seq<RuleSpec>, wanted: seq<RuleSpec>)
    ensures forall x :: x in Foreign(c, wanted) ==> x !in wanted
  {
    hide Foreign;
    forall x | x in Foreign(c, wanted)
      ensures x !in wanted
    {
      ForeignMembers(c, wanted, x);
    }
  }

  lemma {:induction false} ForeignFirst(
    c: seq<RuleSpec>, wanted: seq<RuleSpec>) returns (a: seq<RuleSpec>, b: seq<RuleSpec>)
    requires Turned(c, wanted) == c
    ensures c == a + b && (forall x :: x in a ==> x !in wanted) && (forall x :: x in b ==> x in wanted)
  {
    hide Turned;
    if exists x :: x in c && x !in wanted {
      var n := LastForeign(c, wanted);
      assert c == c[..n] + [c[n]] + c[n + 1..];
      UnchangedBefore(c[..n], c[n], c[n + 1..], wanted);
      a, b := c[..n + 1], c[n + 1..];
      assert c[..n + 1] == c[..n] + [c[n]];
    } else {
      a, b := [], c;
    }
  }

  /** Bootstrap changes nothing if and only if no chain is missing and every chain is settled. */
  lemma {:induction false} BootstrapChangesNothing(chains: Chains, rules: seq<Rule>)
    ensures Bootstrapped(chains, rules) == Ok(chains) <==>
      && ChainsAvailable(chains, rules)
      && (forall k :: Creates(rules, k) ==> k in chains)
      && (forall k :: k in chains ==> Settled(chains[k], RulesFor(rules, k)))
  {
    hide Bootstrapped, RulesFor, Foreign, Own, SameCounts, Creates, ChainsAvailable, Settled;
    BootstrapSucceeds(chains, rules);
    if ChainsAvailable(chains, rules) {
      var after := Bootstrapped(chains, rules).value;
      forall k
        ensures k in after <==> k in chains || Creates(rules, k)
        ensures k in chains ==> (after[k] == chains[k] <==> Settled(chains[k], RulesFor(rules, k)))
      {
        BootstrapOrders(chains, rules, k);
        UnchangedExactly(Content(chains, k), RulesFor(rules, k));
        assert Turned(Content(chains, k), RulesFor(rules, k))
            == WithoutEach(Content(chains, k) + RulesFor(rules, k), Present(Content(chains, k), RulesFor(rules, k)));
      }
      hide WithoutEach, Present, Turned;
      var settled := forall k :: k in chains ==> Settled(chains[k], RulesFor(rules, k));
      if settled && forall k :: Creates(rules, k) ==> k in chains {
        assert after.Keys == chains.Keys;
        assert after == chains;
      }
    }
  }

  /**
    One wanted rule, in a chain that has it: its first occurrence goes to the end.
    With a surplus, as in f, w, g, w, that is the order f, g, w, w and not the
    chain as it was.
   */
  lemma {:induction false} SurplusRotates(key: ChainKey, a: seq<RuleSpec>, w: RuleSpec, b: seq<RuleSpec>)
    requires w !in a
    ensures var chains: Chains := map[key := a + [w] + b];
      var r := Bootstrapped(chains, [Rule(key.table, key.chain, w)]);
      r.Ok? && key in r.value && r.value[key] == a + b + [w]
  {
    var chains: Chains := map[key := a + [w] + b];
    var r := Rule(key.table, key.chain, w);
    OneRule(r, chains);
    SurplusTurns(a, w, b);
    hide Bootstrapped, RulesFor, WithoutEach, Present, Foreign, SameCounts, ChainsAvailable, Creates;
    BootstrapOrders(chains, [r], key);
  }

  lemma {:induction false} OneRule(r: Rule, chains: Chains)
    requires KeyOf(r) in chains
    ensures RulesFor([r], KeyOf(r)) == [r.spec] && ChainsAvailable(chains, [r])
  {
    assert [r][..0] == [];
  }

  lemma {:induction false} SurplusTurns(a: seq<RuleSpec>, w: RuleSpec, b: seq<RuleSpec>)
    requires w !in a
    ensures var c := a + [w] + b; WithoutEach(c + [w], Present(c, [w])) == a + b + [w]
  {
    hide Present, DropFirst;
    var c := a + [w] + b;
    OnePresent(c, w);
    DropOnly(c + [w], w);
    hide WithoutEach;
    Regrouped(a, w, b);
    DropFromBack(a, [w] + (b + [w]), w);
    DropHead(w, b + [w]);
  }

  lemma {:induction false} DropOnly(c: seq<RuleSpec>, w: RuleSpec)
    ensures WithoutEach(c, [w]) == DropFirst(c, w)
  {
    hide DropFirst;
    assert [w][..0] == [] && WithoutEach(c, []) == c;
  }

  lemma Regrouped(a: seq<RuleSpec>, w: RuleSpec, b: seq<RuleSpec>)
    ensures a + [w] + b + [w] == a + ([w] + (b + [w])) && a + (b + [w]) == a + b + [w]
  {
  }

  lemma {:induction false} OnePresent(c: seq<RuleSpec>, w: RuleSpec)
    requires w in c
    ensures Present(c, [w]) == [w]
  {
    assert [w][..0] == [] && Present(c, []) == [];
  }

  lemma {:induction false} DropHead(w: RuleSpec, rest: seq<RuleSpec>)
    ensures DropFirst([w] + rest, w) == rest
  {
    var c := [w] + rest;
    assert c[0] == w && IndexOf(c, w) == 0;
  }

  // ----- ensure -----

  lemma {:induction false} RulesExistMeaning(chains: Chains, rules: seq<Rule>)
    ensures RulesExist(chains, rules) <==> forall r :: r in rules ==> FlannelChainExists(chains, r) && Exists(chains, r)
    decreases |rules|
  {
    if rules == [] {
    } else {
      RulesExistMeaning(chains, rules[1..]);
      assert rules == [rules[0]] + rules[1..];
    }
  }

  /**
    The periodic check looks at presence, not at order.  A chain is in the
    wanted order afterwards if and only if it was before, or some rule of the
    list was missing and the counts agreed.
   */
  lemma {:induction false} EnsureOrders(chains: Chains, rules: seq<Rule>, key: ChainKey)
    ensures var r := Ensured(chains, rules);
      var c, wanted := Content(chains, key), RulesFor(rules, key);
      var ordered := Foreign(c, wanted) + wanted;
      && (r.Ok? <==> ChainsAvailable(chains, rules))
      && (r.Ok? && key in r.value ==>
            (r.value[key] == ordered <==> c == ordered || (!RulesExist(chains, rules) && SameCounts(c, wanted))))
  {
    var c, wanted := Content(chains, key), RulesFor(rules, key);
    if RulesExist(chains, rules) {
      RulesExistMeaning(chains, rules);
      assert ChainsAvailable(chains, rules);
    } else {
      hide Bootstrapped, RulesExist, Foreign, RulesFor, SameCounts, ChainsAvailable, WithoutEach, Present, Creates;
      BootstrapSucceeds(chains, rules);
      if ChainsAvailable(chains, rules) {
        BootstrapOrders(chains, rules, key);
        OrderedIsFixed(c, wanted);
      }
    }
  }

  // ----- teardown -----

  /** The rules that teardown looks for: those whose flannel chain is not missing. */
  function Live(chains: Chains, rules: seq<Rule>): seq<Rule> {
    if rules == [] then []
    else
      var r := rules[|rules| - 1];
      Live(chains, rules[..|rules| - 1]) + (if FlannelChainExists(chains, r) then [r] else [])
  }

  lemma {:induction false} LiveAll(chains: Chains, rules: seq<Rule>)
    requires forall r :: r in rules ==> FlannelChainExists(chains, r)
    ensures Live(chains, rules) == rules
  {
    hide FlannelChainExists;
    if rules == [] {
    } else {
      assert rules[|rules| - 1] in rules;
      LiveAll(chains, rules[..|rules| - 1]);
    }
  }

  lemma {:induction false} RulesForAppend(p: seq<Rule>, r: Rule, key: ChainKey)
    ensures RulesFor(p + [r], key) == RulesFor(p, key) + (if KeyOf(r) == key then [r.spec] else [])
  {
    assert (p + [r])[..|p|] == p;
    assert RulesFor(p, key) + [] == RulesFor(p, key);
  }

  lemma {:induction false} NoDeletionOps(chains: Chains, key: ChainKey)
    requires key in chains
    ensures OpsFor(Deletions(chains, []), key) ==
      ChainDeletions(chains[key], RulesFor(Live(chains, []), key), key.chain)
  {
  }

  lemma {:induction false} LastLive(chains: Chains, rules: seq<Rule>)
    requires rules != []
    ensures var p, r := rules[..|rules| - 1], rules[|rules| - 1];
      && Live(chains, rules) == (if FlannelChainExists(chains, r) then Live(chains, p) + [r] else Live(chains, p))
      && Deletions(chains, rules) ==
           (if FlannelChainExists(chains, r) && Exists(chains, r)
            then Push(Deletions(chains, p), r.table, Delete(r.chain, r.spec)) else Deletions(chains, p))
  {
    hide FlannelChainExists, Exists, Push;
    assert Live(chains, rules[..|rules| - 1]) + [] == Live(chains, rules[..|rules| - 1]);
  }

  lemma {:induction false} DeletionOps(chains: Chains, rules: seq<Rule>, key: ChainKey)
    requires key in chains
    ensures OpsFor(Deletions(chains, rules), key) ==
      ChainDeletions(chains[key], RulesFor(Live(chains, rules), key), key.chain)
  {
    hide OpsFor, Push, RulesFor, ChainDeletions, Present, FlannelChainExists, Live, Deletions;
    if rules == [] {
      NoDeletionOps(chains, key);
    } else {
      var n := |rules| - 1;
      var r, p := rules[n], rules[..n];
      DeletionOps(chains, p, key);
      LastLive(chains, rules);
      PushOps(Deletions(chains, p), r.table, Delete(r.chain, r.spec), key);
      RulesForAppend(Live(chains, p), r, key);
      if KeyOf(r) == key {
        Unfolded(chains[key], RulesFor(Live(chains, p), key), r.spec, key.chain);
      }
      assert OpsFor(Deletions(chains, p), key) + [] == OpsFor(Deletions(chains, p), key);
      assert RulesFor(Live(chains, p), key) + [] == RulesFor(Live(chains, p), key);
    }
  }

  lemma {:induction false} DeletionTargets(chains: Chains, rules: seq<Rule>, t: string, op: Op)
    requires t in Deletions(chains, rules) && op in Deletions(chains, rules)[t]
    ensures ChainKey(t, op.chain) in chains
  {
    var n := |rules| - 1;
    var p, r := rules[..n], rules[n];
    var tx := Deletions(chains, p);
    if t in tx && op in tx[t] {
      DeletionTargets(chains, p, t, op);
    } else {
      PushTargets(tx, r.table, Delete(r.chain, r.spec), t, op);
    }
  }

  /**
    Teardown succeeds if and only if every chain has its rules at least as often
    as the list does.  It then takes those out; what is left is exactly the
    foreign rules if and only if the counts agreed.
   */
  lemma {:induction false} TeardownRemoves(chains: Chains, rules: seq<Rule>)
    ensures var r := TornDown(chains, rules);
      && (r.Ok? <==> forall k :: k in chains ==> Enough(chains[k], RulesFor(Live(chains, rules), k)))
      && (r.Ok? ==> r.value.Keys == chains.Keys && forall k :: k in chains ==>
            var wanted := RulesFor(Live(chains, rules), k);
            && r.value[k] == WithoutEach(chains[k], Present(chains[k], wanted))
            && (r.value[k] == Foreign(chains[k], wanted) <==> SameCounts(chains[k], wanted)))
  {
    hide Deletions, OpsFor, ApplyOps, ChainDeletions, RulesFor, Live, WithoutEach, Present, Foreign, SameCounts, Enough;
    var tx := Deletions(chains, rules);
    forall t, op: Op | t in tx && op in tx[t]
      ensures ChainKey(t, op.chain) in chains
    {
      DeletionTargets(chains, rules, t, op);
    }
    forall k | k in chains
      ensures var c, wanted := chains[k], RulesFor(Live(chains, rules), k);
        && ApplyOps(c, OpsFor(tx, k)) == (if Enough(c, wanted) then Some(WithoutEach(c, Present(c, wanted))) else None)
        && (Enough(c, wanted) ==> (WithoutEach(c, Present(c, wanted)) == Foreign(c, wanted) <==> SameCounts(c, wanted)))
    {
      DeletionOps(chains, rules, k);
      ChainDeletionsResult(chains[k], RulesFor(Live(chains, rules), k), k.chain);
      if Enough(chains[k], RulesFor(Live(chains, rules), k)) {
        DeletedIsForeign(chains[k], RulesFor(Live(chains, rules), k));
      }
    }
  }

  /** Where the counts agree, teardown after bootstrap leaves every chain its foreign rules, in their old order. */
  lemma {:induction false} TeardownUndoesBootstrap(chains: Chains, rules: seq<Rule>)
    requires ChainsAvailable(chains, rules) && AllSameCounts(chains, rules)
    ensures Bootstrapped(chains, rules).Ok?
    ensures var up := Bootstrapped(chains, rules).value;
      var down := TornDown(up, rules);
      && down.Ok? && down.value.Keys == up.Keys
      && forall k :: k in up ==> down.value[k] == Foreign(Content(chains, k), RulesFor(rules, k))
  {
    hide Bootstrapped, TornDown, RulesFor, Foreign, SameCounts, WithoutEach, Present, Creates, ChainsAvailable;
    BootstrapIsStable(chains, rules);
    var up := Bootstrapped(chains, rules).value;
    forall r | r in rules
      ensures FlannelChainExists(up, r)
    {
      if FlannelChain(r).Some? {
        BootstrapOrders(chains, rules, ChainKey(r.table, FlannelChain(r).value));
        CreatesOwn(rules, r);
      }
    }
    LiveAll(up, rules);
    TeardownRemoves(up, rules);
    forall k | k in up
      ensures Enough(up[k], RulesFor(rules, k))
      ensures Foreign(up[k], RulesFor(rules, k)) == Foreign(Content(chains, k), RulesFor(rules, k))
    {
      EnoughOfSame(up[k], RulesFor(rules, k));
      BootstrapOrders(chains, rules, k);
      if k !in chains {
        NothingCounts(RulesFor(rules, k));
      }
      OrderedIsFixed(Content(chains, k), RulesFor(rules, k));
    }
  }

  lemma CreatesOwn(rules: seq<Rule>, r: Rule)
    requires r in rules && FlannelChain(r).Some?
    ensures Creates(rules, ChainKey(r.table, FlannelChain(r).value))
  {
  }

  lemma EnoughOfSame(c: seq<RuleSpec>, wanted: seq<RuleSpec>)
    requires SameCounts(c, wanted)
    ensures Enough(c, wanted)
  {
  }

  // ----- what the masquerade chain decides -----

  const NAT_POSTRTG := ChainKey("nat", POSTRTG)

  predicate In(w: nat, net: Net, ip: nat) {
    Contains(w, net, ip)
  }

  /** Traffic that leaves the overlay, or enters it from outside, and is not addressed to the node's own pods. */
  predicate ShouldMasquerade(w: nat, cluster: Net, pod: Net, multicast: Net, p: Packet) {
    && !p.marked && !In(w, pod, p.dst)
    && (|| (In(w, cluster, p.src) && !In(w, multicast, p.dst) && !(In(w, pod, p.src) && In(w, cluster, p.dst)))
        || (!In(w, cluster, p.src) && In(w, cluster, p.dst)))
  }

  lemma TwoMatches(w: nat, s: RuleSpec, a: Match, b: Match, p: Packet)
    requires s.matches == [a, b]
    ensures SpecMatches(w, s, p) <==> MatchHolds(w, a, p) && MatchHolds(w, b, p)
  {
    assert a in s.matches && b in s.matches;
  }

  lemma {:induction false} MasqChainDecides(
    w: nat, cluster: Net, pod: Net, multicast: Net, disable: bool, supports: bool, p: Packet)
    requires Fits(w, cluster) && Fits(w, pod) && ContainsCidr(w, cluster, pod) && p.src < Pow2(w)
    ensures var chain := PostrtgChain(cluster, pod, multicast, disable, supports);
      Verdict(w, chain, p) == Some("MASQUERADE") <==> ShouldMasquerade(w, cluster, pod, multicast, p)
  {
    ContainsCidrIsInclusion(w, cluster, pod);
    assert Contains(w, pod, p.src) ==> Contains(w, cluster, p.src);
    hide Contains, ContainsCidr, Verdict, SpecMatches;
    var c := PostrtgChain(cluster, pod, multicast, disable, supports);
    VerdictOfSix(w, c[0], c[1], c[2], c[3], c[4], c[5], p);
    assert c == [c[0], c[1], c[2], c[3], c[4], c[5]];
    OneMatch(w, c[0], p);
    TwoMatches(w, c[1], Src(false, pod), Dst(false, cluster), p);
    TwoMatches(w, c[2], Src(false, cluster), Dst(false, pod), p);
    TwoMatches(w, c[3], Src(true, cluster), Dst(false, pod), p);
    TwoMatches(w, c[4], Src(false, cluster), Dst(true, multicast), p);
    TwoMatches(w, c[5], Src(true, cluster), Dst(false, cluster), p);
  }

  lemma OneMatch(w: nat, s: RuleSpec, p: Packet)
    requires s.matches == [Marked]
    ensures SpecMatches(w, s, p) <==> p.marked
  {
    assert Marked in s.matches;
  }

  lemma {:induction false} VerdictOfSix(
    w: nat, a: RuleSpec, b: RuleSpec, c: RuleSpec, d: RuleSpec, e: RuleSpec, f: RuleSpec, p: Packet)
    ensures Verdict(w, [a, b, c, d, e, f], p) ==
      if SpecMatches(w, a, p) then Some(a.target)
      else if SpecMatches(w, b, p) then Some(b.target)
      else if SpecMatches(w, c, p) then Some(c.target)
      else if SpecMatches(w, d, p) then Some(d.target)
      else if SpecMatches(w, e, p) then Some(e.target)
      else if SpecMatches(w, f, p) then Some(f.target)
      else None
  {
    hide SpecMatches;
    assert [a, b, c, d, e, f][1..] == [b, c, d, e, f];
    assert [b, c, d, e, f][1..] == [c, d, e, f];
    assert [c, d, e, f][1..] == [d, e, f];
    assert [d, e, f][1..] == [e, f];
    assert [e, f][1..] == [f];
    assert [f][1..] == [];
    assert Verdict(w, [f], p) == if SpecMatches(w, f, p) then Some(f.target) else None;
    assert Verdict(w, [e, f], p) == if SpecMatches(w, e, p) then Some(e.target) else Verdict(w, [f], p);
    assert Verdict(w, [d, e, f], p) == if SpecMatches(w, d, p) then Some(d.target) else Verdict(w, [e, f], p);
    assert Verdict(w, [c, d, e, f], p) == if SpecMatches(w, c, p) then Some(c.target) else Verdict(w, [d, e, f], p);
    assert Verdict(w, [b, c, d, e, f], p) ==
      if SpecMatches(w, b, p) then Some(b.target) else Verdict(w, [c, d, e, f], p);
  }

  /** The wanted rules of the flannel chain, in order. */
  function PostrtgChain(cluster: Net, pod: Net, multicast: Net, disable: bool, supports: bool): seq<RuleSpec> {
    var rules := MasqRules(cluster, pod, multicast, disable, supports);
    seq(6, i requires 0 <= i < 6 => rules[i + 1].spec)
  }

  lemma MasqRulesFor(cluster: Net, pod: Net, multicast: Net, disable: bool, supports: bool)
    ensures RulesFor(MasqRules(cluster, pod, multicast, disable, supports), NAT_POSTRTG)
         == PostrtgChain(cluster, pod, multicast, disable, supports)
  {
    var rules := MasqRules(cluster, pod, multicast, disable, supports);
    var chain := PostrtgChain(cluster, pod, multicast, disable, supports);
    assert |"POSTROUTING"| != |POSTRTG|;
    forall i | 0 <= i < 6
      ensures rules[i + 1].spec == chain[i] && KeyOf(rules[i + 1]) == NAT_POSTRTG
    {
      assert i == 0 || i == 1 || i == 2 || i == 3 || i == 4 || i == 5;
    }
    PrefixFor(rules, chain, 7);
    assert rules[..7] == rules && chain[..6] == chain;
  }

  lemma {:induction false} PrefixFor(rules: seq<Rule>, chain: seq<RuleSpec>, n: nat)
    requires 1 <= n <= |rules| && |rules| == |chain| + 1 && KeyOf(rules[0]) != NAT_POSTRTG
    requires forall i :: 0 <= i < |chain| ==> rules[i + 1].spec == chain[i] && KeyOf(rules[i + 1]) == NAT_POSTRTG
    ensures RulesFor(rules[..n], NAT_POSTRTG) == chain[..n - 1]
  {
    assert rules[..n][..n - 1] == rules[..n - 1];
    if n == 1 {
      assert rules[..0] == [];
    } else {
      PrefixFor(rules, chain, n - 1);
      assert chain[..n - 2] + [chain[n - 2]] == chain[..n - 1];
    }
  }

  /** The rules are pairwise different exactly when pod and cluster network are. */
  lemma MasqRulesDistinct(cluster: Net, pod: Net, multicast: Net, disable: bool, supports: bool)
    ensures DistinctRules(MasqRules(cluster, pod, multicast, disable, supports)) <==> pod != cluster
  {
    var rules := MasqRules(cluster, pod, multicast, disable, supports);
    if pod == cluster {
      assert rules[2] == rules[3];
    } else {
      assert rules[1].spec.matches[0] != rules[2].spec.matches[0];
      assert forall i :: 2 <= i < 7 ==> |rules[i].spec.matches| == 2;
    }
  }

  lemma MasqRulesAvailable(chains: Chains, cluster: Net, pod: Net, multicast: Net, disable: bool, supports: bool)
    requires ChainKey("nat", "POSTROUTING") in chains
    ensures var rules := MasqRules(cluster, pod, multicast, disable, supports);
      ChainsAvailable(chains, rules) && Creates(rules, NAT_POSTRTG)
  {
    var rules := MasqRules(cluster, pod, multicast, disable, supports);
    MarkedRuleIsOwn(rules[1]);
    assert rules[1] in rules;
    hide FlannelChain;
    forall r | r in rules
      ensures KeyOf(r) == ChainKey("nat", "POSTROUTING") || KeyOf(r) == NAT_POSTRTG
    {
      var i :| 0 <= i < 7 && r == rules[i];
    }
  }

  lemma MarkedRuleIsOwn(r: Rule)
    requires r.chain == POSTRTG && r.spec.target == "RETURN" && !r.spec.randomFully
    ensures FlannelChain(r) == Some(POSTRTG)
  {
    assert |"RETURN"| == 6 && |FWD| == 11 && |POSTRTG| == 15;
  }

  /** For different networks, counts agree exactly when no wanted rule occurs twice in the flannel chain. */
  lemma MasqCounts(c: seq<RuleSpec>, cluster: Net, pod: Net, multicast: Net, disable: bool, supports: bool)
    requires pod != cluster
    ensures var wanted := PostrtgChain(cluster, pod, multicast, disable, supports);
      SameCounts(c, wanted) <==> AtMostOnce(c, wanted)
  {
    hide MasqRules, PostrtgChain, RulesFor, SameCounts, AtMostOnce, Distinct, DistinctRules;
    MasqRulesDistinct(cluster, pod, multicast, disable, supports);
    MasqRulesFor(cluster, pod, multicast, disable, supports);
    RulesForDistinct(MasqRules(cluster, pod, multicast, disable, supports), NAT_POSTRTG);
    SameCountsOfDistinct(c, PostrtgChain(cluster, pod, multicast, disable, supports));
  }

  /**
    Bootstrap of the masquerade rules, whatever order the flannel chain was in:
    as long as it held no foreign rule and each of the wanted ones as often as
    wanted or not at all, it then masquerades exactly the packets it should.
   */
  lemma {:induction false} BootstrapMasquerades(
    chains: Chains, w: nat, cluster: Net, pod: Net, multicast: Net, disable: bool, supports: bool, p: Packet)
    requires Fits(w, cluster) && Fits(w, pod) && ContainsCidr(w, cluster, pod) && p.src < Pow2(w)
    requires ChainKey("nat", "POSTROUTING") in chains
    requires var c, wanted := Content(chains, NAT_POSTRTG), PostrtgChain(cluster, pod, multicast, disable, supports);
      SameCounts(c, wanted) && forall s :: s in c ==> s in wanted
    ensures var r := Bootstrapped(chains, MasqRules(cluster, pod, multicast, disable, supports));
      && r.Ok? && NAT_POSTRTG in r.value
      && (Verdict(w, r.value[NAT_POSTRTG], p) == Some("MASQUERADE") <==>
            ShouldMasquerade(w, cluster, pod, multicast, p))
  {
    var rules := MasqRules(cluster, pod, multicast, disable, supports);
    hide MasqRules, PostrtgChain, Bootstrapped, Verdict, ShouldMasquerade, Foreign, RulesFor, SameCounts, ContainsCidr,
         ChainsAvailable, KeyOf, Creates, WithoutEach, Present;
    MasqRulesAvailable(chains, cluster, pod, multicast, disable, supports);
    MasqRulesFor(cluster, pod, multicast, disable, supports);
    BootstrapOrders(chains, rules, NAT_POSTRTG);
    var wanted := PostrtgChain(cluster, pod, multicast, disable, supports);
    ForeignOfWanted(Content(chains, NAT_POSTRTG), wanted);
    assert [] + wanted == wanted;
    MasqChainDecides(w, cluster, pod, multicast, disable, supports, p);
  }

  // ----- the periodic check on a disordered chain -----

  /** The flannel chain with its first masquerade rule moved to the front. */
  function Disordered(cluster: Net, pod: Net, multicast: Net, disable: bool, supports: bool): Chains {
    var c := PostrtgChain(cluster, pod, multicast, disable, supports);
    var jump := MasqRules(cluster, pod, multicast, disable, supports)[0].spec;
    map[ChainKey("nat", "POSTROUTING") := [jump], NAT_POSTRTG := [c[4], c[0], c[1], c[2], c[3], c[5]]]
  }

  /**
    The masquerade rules, all there but out of order: the periodic check leaves
    them so, and the chain then masquerades every packet that leaves the
    cluster other than to multicast, marked ones and those for the node's own pods included.
   */
  lemma {:induction false} EnsureMissesOrder(
    w: nat, cluster: Net, pod: Net, multicast: Net, disable: bool, supports: bool, p: Packet)
    requires In(w, cluster, p.src) && !In(w, multicast, p.dst)
    ensures var chains := Disordered(cluster, pod, multicast, disable, supports);
      && Ensured(chains, MasqRules(cluster, pod, multicast, disable, supports)) == Ok(chains)
      && Verdict(w, chains[NAT_POSTRTG], p) == Some("MASQUERADE")
    ensures p.marked || In(w, pod, p.dst) ==> !ShouldMasquerade(w, cluster, pod, multicast, p)
  {
    var rules := MasqRules(cluster, pod, multicast, disable, supports);
    var chains := Disordered(cluster, pod, multicast, disable, supports);
    var c := PostrtgChain(cluster, pod, multicast, disable, supports);
    forall r | r in rules
      ensures FlannelChainExists(chains, r) && Exists(chains, r)
    {
      var i :| 0 <= i < 7 && r == rules[i];
      DisorderedHas(cluster, pod, multicast, disable, supports, i);
    }
    RulesExistMeaning(chains, rules);
    hide RulesExist, Bootstrapped, Contains;
    TwoMatches(w, c[4], Src(false, cluster), Dst(true, multicast), p);
  }

  lemma DisorderedHas(cluster: Net, pod: Net, multicast: Net, disable: bool, supports: bool, i: nat)
    requires i < 7
    ensures var r := MasqRules(cluster, pod, multicast, disable, supports)[i];
      var chains := Disordered(cluster, pod, multicast, disable, supports);
      FlannelChainExists(chains, r) && Exists(chains, r)
  {
    var r := MasqRules(cluster, pod, multicast, disable, supports)[i];
    var chains := Disordered(cluster, pod, multicast, disable, supports);
    assert |"RETURN"| == 6 && |"MASQUERADE"| == 10 && |"--random-fully"| == 14 && |FWD| == 11 && |POSTRTG| == 15;
    assert |"POSTROUTING"| == 11 && "POSTROUTING"[0] == 'P' && FWD[0] == 'F';
    if i == 0 {
      assert chains[KeyOf(r)][0] == r.spec;
    } else {
      var at := if i == 5 then 0 else if i == 6 then 5 else i;
      assert chains[NAT_POSTRTG][at] == r.spec;
    }
  }

  /** A marked packet from 10.1.0.0 to 10.0.0.0 in the cluster 10.0.0.0/8 is one of them. */
  lemma EnsureMasqueradesMarked(disable: bool, supports: bool)
    ensures var cluster, pod, multicast := Net(0x0A00_0000, 8), Net(0x0A01_0000, 16), Net(0xE000_0000, 4);
      var p := Packet(0x0A01_0000, 0x0A00_0000, true);
      var rules, chains := MasqRules(cluster, pod, multicast, disable, supports),
                           Disordered(cluster, pod, multicast, disable, supports);
      && Ensured(chains, rules) == Ok(chains)
      && Verdict(W4, chains[NAT_POSTRTG], p) == Some("MASQUERADE")
      && !ShouldMasquerade(W4, cluster, pod, multicast, p)
  {
    Pow2Values();
    Pow2Add(8, 16);
    Pow2Add(24, 4);
    assert Pow2(4) == 16;
    assert BlockSize(W4, 8) == 0x100_0000 && BlockSize(W4, 4) == 0x1000_0000;
    hide Pow2;
    ContainsByBlock(W4, Net(0x0A00_0000, 8), 0x0A01_0000);
    ContainsByBlock(W4, Net(0xE000_0000, 4), 0x0A00_0000);
    hide Contains, Ensured, Verdict, Disordered, MasqRules;
    EnsureMissesOrder(W4, Net(0x0A00_0000, 8), Net(0x0A01_0000, 16), Net(0xE000_0000, 4), disable, supports,
                      Packet(0x0A01_0000, 0x0A00_0000, true));
  }
}
