/**
  The self-reordering route table against a plain map from subnets to next hops,
  over every interleaving of lease events and lookups.
 */
module UdpRuns {
  import opened Base
  import opened Bits
  import opened IpNet
  import opened Lease
  import opened UdpProxy

  /** A lease event, sent as a command and applied, or a lookup of a destination address in host order. */
  datatype Op = LeaseEvent(event: Event) | Lookup(ip: nat)

  predicate ValidOp(op: Op) {
    match op
    case LeaseEvent(e) =>
      e.lease.subnet.ip < 0x1_0000_0000 && e.lease.subnet.prefixLen <= 32 && e.lease.attrs.publicIp < 0x1_0000_0000
    case Lookup(ip) => ip < 0x1_0000_0000
  }

  predicate ValidOps(ops: seq<Op>) {
    forall op :: op in ops ==> ValidOp(op)
  }

  /** The table after one operation: events travel through the 20-byte encoding. */
  function Step(port: int, es: seq<RouteEntry>, op: Op): seq<RouteEntry>
    requires ValidOp(op)
  {
    match op
    case LeaseEvent(e) => AfterCommand(es, FromBytes(ToBytes(EventCommand(port, e))))
    case Lookup(ip) => Reordered(es, Swap32(ip))
  }

  function Run(port: int, ops: seq<Op>): seq<RouteEntry>
    requires ValidOps(ops)
  {
    if ops == [] then []
    else Step(port, Run(port, ops[..|ops| - 1]), ops[|ops| - 1])
  }

  /** The map the events describe: masked subnet to public address. */
  function Installed(ops: seq<Op>): map<Net, nat> {
    if ops == [] then map[]
    else
      var m := Installed(ops[..|ops| - 1]);
      match ops[|ops| - 1]
      case Lookup(_) => m
      case LeaseEvent(e) =>
        var net := Network(W4, e.lease.subnet);
        match e.kind
        case Added => m[net := e.lease.attrs.publicIp]
        case Removed => m - {net}
  }

  // ----- byte order and masks -----

  function Pack(a: nat, b: nat, c: nat, d: nat): nat {
    ((a * 256 + b) * 256 + c) * 256 + d
  }

  lemma Unpack(x: nat) returns (a: nat, b: nat, c: nat, d: nat)
    requires x < 0x1_0000_0000
    ensures a < 256 && b < 256 && c < 256 && d < 256
    ensures x == Pack(a, b, c, d) && Swap32(x) == Pack(d, c, b, a)
  {
    a, b, c, d := x / 16_777_216, x / 65_536 % 256, x / 256 % 256, x % 256;
    var q1, q2 := x / 256, x / 65_536;
    assert q1 == 256 * q2 + c && q2 == 256 * a + b && x == 256 * q1 + d;
  }

  lemma SwapOfPack(a: nat, b: nat, c: nat, d: nat)
    requires a < 256 && b < 256 && c < 256 && d < 256
    ensures Pack(a, b, c, d) < 0x1_0000_0000 && Swap32(Pack(a, b, c, d)) == Pack(d, c, b, a)
  {
    var x := Pack(a, b, c, d);
    assert x / 256 == (a * 256 + b) * 256 + c && x % 256 == d;
    assert x / 65_536 == a * 256 + b;
    assert x / 16_777_216 == a;
  }

  lemma {:induction false} AndOfPack(a: nat, b: nat, c: nat, d: nat, a': nat, b': nat, c': nat, d': nat)
    requires a < 256 && b < 256 && c < 256 && d < 256 && a' < 256 && b' < 256 && c' < 256 && d' < 256
    ensures And(Pack(a, b, c, d), Pack(a', b', c', d')) == Pack(And(a, a'), And(b, b'), And(c, c'), And(d, d'))
  {
    hide And;
    Pow2Values();
    AndSplit(8, (a * 256 + b) * 256 + c, (a' * 256 + b') * 256 + c', d, d');
    AndSplit(8, a * 256 + b, a' * 256 + b', c, c');
    AndSplit(8, a, a', b, b');
  }

  /** Reversing bytes commutes with masking. */
  lemma {:induction false} SwapOfAnd(x: nat, y: nat)
    requires x < 0x1_0000_0000 && y < 0x1_0000_0000
    ensures And(Swap32(x), Swap32(y)) == Swap32(And(x, y))
  {
    hide And, Swap32, Pack;
    var a, b, c, d := Unpack(x);
    var a', b', c', d' := Unpack(y);
    AndOfPack(a, b, c, d, a', b', c', d');
    AndOfPack(d, c, b, a, d', c', b', a');
    SwapOfPack(And(a, a'), And(b, b'), And(c, c'), And(d, d'));
  }

  lemma SwapInjective(x: nat, y: nat)
    requires x < 0x1_0000_0000 && y < 0x1_0000_0000
    ensures Swap32(x) == Swap32(y) <==> x == y
  {
    hide Swap32;
    var a, b, c, d := Unpack(x);
    var a', b', c', d' := Unpack(y);
    SwapOfPack(d, c, b, a);
    SwapOfPack(d', c', b', a');
  }

  /** Destination of a subnet as the proxy stores it. */
  function DstOf(net: Net): IpMask
    requires net.ip < 0x1_0000_0000 && net.prefixLen <= 32
  {
    MaskFits(net.prefixLen);
    IpMask(Swap32(And(net.ip, MaskValue(W4, net.prefixLen))), Swap32(MaskValue(W4, net.prefixLen)))
  }

  predicate ValidNet(net: Net) {
    net.ip < 0x1_0000_0000 && net.prefixLen <= 32
  }

  /** An entry is hit exactly by the addresses its subnet contains. */
  lemma HitIsContains(net: Net, ip: nat, e: RouteEntry)
    requires ValidNet(net) && ip < 0x1_0000_0000 && e.dst == DstOf(net)
    ensures Hits(e, Swap32(ip)) <==> Contains(W4, net, ip)
  {
    hide And, Swap32, MaskValue;
    var m := MaskValue(W4, net.prefixLen);
    MaskFits(net.prefixLen);
    SwapOfAnd(ip, m);
    SwapInjective(And(net.ip, m), And(ip, m));
  }

  /** The destination determines the masked subnet. */
  lemma DstOfInjective(a: Net, b: Net)
    requires ValidNet(a) && ValidNet(b)
    ensures DstOf(a) == DstOf(b) <==> Network(W4, a) == Network(W4, b)
  {
    hide And, Swap32, MaskValue;
    MaskFits(a.prefixLen);
    MaskFits(b.prefixLen);
    SwapInjective(MaskValue(W4, a.prefixLen), MaskValue(W4, b.prefixLen));
    SwapInjective(And(a.ip, MaskValue(W4, a.prefixLen)), And(b.ip, MaskValue(W4, b.prefixLen)));
    MaskOrder(W4, a.prefixLen, b.prefixLen);
    MaskOrder(W4, b.prefixLen, a.prefixLen);
  }

  lemma DstOfNetwork(net: Net)
    requires ValidNet(net)
    ensures ValidNet(Network(W4, net)) && DstOf(Network(W4, net)) == DstOf(net)
    ensures Network(W4, Network(W4, net)) == Network(W4, net)
  {
    hide And, MaskValue, Swap32;
    Pow2Values();
    NetworkSameSet(W4, net, net.ip);
  }

  // ----- the table represents the map -----

  function EntryOf(port: int, net: Net, publicIp: nat): RouteEntry
    requires ValidNet(net) && publicIp < 0x1_0000_0000
  {
    RouteEntry(DstOf(net), Swap32(publicIp), port % 0x1_0000)
  }

  ghost predicate ValidMap(m: map<Net, nat>) {
    forall n :: n in m ==> ValidNet(n) && Network(W4, n) == n && m[n] < 0x1_0000_0000
  }

  ghost predicate DistinctDsts(es: seq<RouteEntry>) {
    forall i, j :: 0 <= i < j < |es| ==> es[i].dst != es[j].dst
  }

  /** The entries are exactly those of the map, one per destination. */
  ghost predicate Represents(port: int, es: seq<RouteEntry>, m: map<Net, nat>) {
    && ValidMap(m)
    && DistinctDsts(es)
    && (forall n :: n in m ==> EntryOf(port, n, m[n]) in es)
    && (forall e :: e in es ==> exists n :: n in m && e == EntryOf(port, n, m[n]))
  }

  /** A valid event's command survives the 20 bytes and names the destination of its subnet. */
  lemma CommandOfEvent(port: int, e: Event)
    requires ValidOp(LeaseEvent(e))
    ensures var c := EventCommand(port, e);
      && FromBytes(ToBytes(c)) == c
      && And(c.destNet, Netmask(c.destNetLen)) == DstOf(e.lease.subnet).ip
      && Netmask(c.destNetLen) == DstOf(e.lease.subnet).mask
      && (e.kind == Added ==> c.nextHopPort % 0x1_0000 == port % 0x1_0000)
  {
    hide And, Swap32, MaskValue, ToBytes, FromBytes;
    CommandRoundTrip(EventCommand(port, e));
    MaskFits(e.lease.subnet.prefixLen);
    SwapOfAnd(e.lease.subnet.ip, MaskValue(W4, e.lease.subnet.prefixLen));
  }

  lemma WithRouteMembers(es: seq<RouteEntry>, e: RouteEntry)
    requires DistinctDsts(es)
    ensures DistinctDsts(WithRoute(es, e))
    ensures forall x :: x in WithRoute(es, e) <==> x == e || (x in es && x.dst != e.dst)
  {
    var i, r := PositionOf(es, e.dst), WithRoute(es, e);
    assert r[if i < |es| then i else |es|] == e;
    forall x | x in es && x.dst != e.dst
      ensures x in r
    {
      var j :| 0 <= j < |es| && es[j] == x;
      assert r[j] == x;
    }
  }

  lemma WithoutRouteMembers(es: seq<RouteEntry>, dst: IpMask)
    requires DistinctDsts(es)
    ensures DistinctDsts(WithoutRoute(es, dst))
    ensures forall x :: x in WithoutRoute(es, dst) <==> x in es && x.dst != dst
  {
    var i, n, r := PositionOf(es, dst), |es| - 1, WithoutRoute(es, dst);
    if i < |es| {
      forall x | x in es && x.dst != dst
        ensures x in r
      {
        var j :| 0 <= j < |es| && es[j] == x;
        assert x == r[if j == n then i else j];
      }
      forall k | 0 <= k < |r|
        ensures r[k] in es && r[k].dst != dst
      {
        assert r[k] == es[if k == i then n else k];
      }
    }
  }

  lemma ReorderedMembers(es: seq<RouteEntry>, dstIp: nat)
    requires DistinctDsts(es)
    ensures DistinctDsts(Reordered(es, dstIp))
    ensures forall x :: x in Reordered(es, dstIp) <==> x in es
  {
    var i, r := FirstHit(es, dstIp), Reordered(es, dstIp);
    if i < |es| {
      assert forall k :: 0 <= k < |es| ==> r[k] == es[if k == 0 then i else if k == i then 0 else k];
      forall x | x in es
        ensures x in r
      {
        var j :| 0 <= j < |es| && es[j] == x;
        assert x == r[if j == 0 then i else if j == i then 0 else j];
      }
    }
  }

  lemma AddedRepresents(port: int, es: seq<RouteEntry>, m: map<Net, nat>, net: Net, ip: nat)
    requires Represents(port, es, m) && ValidNet(net) && ip < 0x1_0000_0000
    ensures Represents(port, WithRoute(es, EntryOf(port, net, ip)), m[Network(W4, net) := ip])
  {
    hide WithRoute, DstOf, Network;
    var k, e := Network(W4, net), EntryOf(port, net, ip);
    WithRouteMembers(es, e);
    DstOfNetwork(net);
    var m' := m[k := ip];
    assert EntryOf(port, k, m'[k]) == e;
    forall n | n in m
      ensures DstOf(n) == e.dst <==> n == k
    {
      DstOfInjective(n, net);
    }
    forall x | x in WithRoute(es, e)
      ensures exists n :: n in m' && x == EntryOf(port, n, m'[n])
    {
      if x != e {
        var n :| n in m && x == EntryOf(port, n, m[n]);
        assert n in m' && x == EntryOf(port, n, m'[n]);
      }
    }
  }

  lemma RemovedRepresents(port: int, es: seq<RouteEntry>, m: map<Net, nat>, net: Net)
    requires Represents(port, es, m) && ValidNet(net)
    ensures Represents(port, WithoutRoute(es, DstOf(net)), m - {Network(W4, net)})
  {
    hide WithoutRoute, DstOf, Network;
    var k := Network(W4, net);
    WithoutRouteMembers(es, DstOf(net));
    DstOfNetwork(net);
    var m' := m - {k};
    forall n | n in m
      ensures DstOf(n) == DstOf(net) <==> n == k
    {
      DstOfInjective(n, net);
    }
    forall x | x in WithoutRoute(es, DstOf(net))
      ensures exists n :: n in m' && x == EntryOf(port, n, m'[n])
    {
      var n :| n in m && x == EntryOf(port, n, m[n]);
      assert n in m' && x == EntryOf(port, n, m'[n]);
    }
  }

  /** An added lease installs the entry of its subnet. */
  lemma AddedStep(port: int, es: seq<RouteEntry>, e: Event)
    requires ValidOp(LeaseEvent(e)) && e.kind == Added
    ensures Step(port, es, LeaseEvent(e)) == WithRoute(es, EntryOf(port, e.lease.subnet, e.lease.attrs.publicIp))
  {
    hide ToBytes, FromBytes, WithRoute, Network, DstOf, Netmask, Swap32, And;
    CommandOfEvent(port, e);
  }

  lemma StepRepresents(port: int, es: seq<RouteEntry>, m: map<Net, nat>, e: Event)
    requires Represents(port, es, m) && ValidOp(LeaseEvent(e))
    ensures var net := Network(W4, e.lease.subnet);
      Represents(port, Step(port, es, LeaseEvent(e)),
                 if e.kind == Added then m[net := e.lease.attrs.publicIp] else m - {net})
  {
    hide Represents, ToBytes, FromBytes, WithRoute, WithoutRoute, Network, DstOf, Netmask, Swap32, And;
    CommandOfEvent(port, e);
    if e.kind == Added {
      AddedStep(port, es, e);
      AddedRepresents(port, es, m, e.lease.subnet, e.lease.attrs.publicIp);
    } else {
      RemovedRepresents(port, es, m, e.lease.subnet);
    }
  }

  /** After any interleaving of events and lookups the table represents the installed subnets. */
  lemma {:induction false} RunRepresents(port: int, ops: seq<Op>)
    requires ValidOps(ops)
    ensures Represents(port, Run(port, ops), Installed(ops))
  {
    if ops == [] {
    } else {
      var n := |ops| - 1;
      assert ops[n] in ops;
      RunRepresents(port, ops[..n]);
      match ops[n] {
        case LeaseEvent(e) => StepRepresents(port, Run(port, ops[..n]), Installed(ops[..n]), e);
        case Lookup(ip) => ReorderedMembers(Run(port, ops[..n]), Swap32(ip));
      }
    }
  }

  ghost predicate PairwiseDisjoint(m: map<Net, nat>) {
    forall a, b :: a in m && b in m && a != b ==> !Overlaps(W4, a, b)
  }

  /** All installed subnets that contain the address have the same public address. */
  ghost predicate Unambiguous(m: map<Net, nat>, ip: nat) {
    forall a, b :: a in m && b in m && Contains(W4, a, ip) && Contains(W4, b, ip) ==> m[a] == m[b]
  }

  /** Disjoint subnets leave no address ambiguous. */
  lemma DisjointIsUnambiguous(m: map<Net, nat>, ip: nat)
    requires ValidMap(m) && PairwiseDisjoint(m) && ip < 0x1_0000_0000
    ensures Unambiguous(m, ip)
  {
    hide Contains, Overlaps, Network;
    Pow2Values();
    forall a, b | a in m && b in m && Contains(W4, a, ip) && Contains(W4, b, ip)
      ensures m[a] == m[b]
    {
      OverlapsIsIntersection(W4, a, b);
      assert ip < Pow2(W4) && Contains(W4, a, ip) && Contains(W4, b, ip);
    }
  }

  /** The answer of a table is the hop of an installed subnet that contains the address; none if there is none. */
  lemma AnswerIsInstalled(port: int, es: seq<RouteEntry>, m: map<Net, nat>, ip: nat)
    requires Represents(port, es, m) && ip < 0x1_0000_0000
    ensures var answer := Answer(es, Swap32(ip));
      && (answer == None <==> forall n :: n in m ==> !Contains(W4, n, ip))
      && (answer.Some? ==> exists n :: n in m && Contains(W4, n, ip) && answer == Some((Swap32(m[n]), port % 0x1_0000)))
  {
    hide Contains, Swap32, DistinctDsts, Hits;
    var i := FirstHit(es, Swap32(ip));
    if i < |es| {
      assert es[i] in es;
      var k :| k in m && es[i] == EntryOf(port, k, m[k]);
      HitIsContains(k, ip, es[i]);
    } else {
      forall n | n in m
        ensures !Contains(W4, n, ip)
      {
        var j :| 0 <= j < |es| && es[j] == EntryOf(port, n, m[n]);
        HitIsContains(n, ip, es[j]);
      }
    }
  }

  /**
    After any history of events and reordering lookups a lookup answers with the
    public address and port of an installed subnet that contains the address, and
    with nothing if there is none.  It answers for every such subnet, as a map
    would, if and only if they agree; disjoint subnets always do.
   */
  lemma {:induction false} LookupIsMapLookup(port: int, ops: seq<Op>, ip: nat)
    requires ValidOps(ops)
    requires ip < 0x1_0000_0000
    ensures var m, answer := Installed(ops), Answer(Run(port, ops), Swap32(ip));
      && ValidMap(m)
      && (answer == None <==> forall n :: n in m ==> !Contains(W4, n, ip))
      && ((forall n :: n in m && Contains(W4, n, ip) ==> answer == Some((Swap32(m[n]), port % 0x1_0000)))
          <==> Unambiguous(m, ip))
      && (PairwiseDisjoint(m) ==> Unambiguous(m, ip))
  {
    hide Run, Installed, Contains, Overlaps, Swap32, Network;
    var m, es := Installed(ops), Run(port, ops);
    RunRepresents(port, ops);
    AnswerIsInstalled(port, es, m, ip);
    if PairwiseDisjoint(m) {
      DisjointIsUnambiguous(m, ip);
    }
    forall a, b | a in m && b in m && Swap32(m[a]) == Swap32(m[b])
      ensures m[a] == m[b]
    {
      SwapInjective(m[a], m[b]);
    }
  }

  function Swapped(es: seq<RouteEntry>, i: nat, j: nat): seq<RouteEntry>
    requires i < |es| && j < |es|
  {
    es[i := es[j]][j := es[i]]
  }

  /** Exchanging two entries keeps what the table represents. */
  lemma SwappedRepresents(port: int, es: seq<RouteEntry>, m: map<Net, nat>, i: nat, j: nat)
    requires Represents(port, es, m) && i < |es| && j < |es|
    ensures Represents(port, Swapped(es, i, j), m)
  {
    hide EntryOf, ValidNet, Network;
    SwappedMembers(es, i, j);
    hide DistinctDsts, Swapped;
  }

  lemma SwappedMembers(es: seq<RouteEntry>, i: nat, j: nat)
    requires DistinctDsts(es) && i < |es| && j < |es|
    ensures DistinctDsts(Swapped(es, i, j))
    ensures forall x :: x in Swapped(es, i, j) <==> x in es
  {
    var r := Swapped(es, i, j);
    forall x | x in es
      ensures x in r
    {
      var k :| 0 <= k < |es| && es[k] == x;
      assert r[if k == i then j else if k == j then i else k] == x;
    }
    forall k, l | 0 <= k < l < |es|
      ensures r[k].dst != r[l].dst
    {
      var k', l' := if k == i then j else if k == j then i else k, if l == i then j else if l == j then i else l;
      assert r[k] == es[k'] && r[l] == es[l'] && (k' < l' || l' < k');
    }
  }

  lemma EntryAt(port: int, es: seq<RouteEntry>, m: map<Net, nat>, n: Net) returns (i: nat)
    requires Represents(port, es, m) && n in m
    ensures i < |es| && es[i] == EntryOf(port, n, m[n])
  {
    i :| i < |es| && es[i] == EntryOf(port, n, m[n]);
  }

  /** The table can be in an order that starts with two given subnets. */
  lemma FirstTwo(port: int, es: seq<RouteEntry>, m: map<Net, nat>, a: Net, b: Net) returns (r: seq<RouteEntry>)
    requires Represents(port, es, m) && a in m && b in m && a != b
    ensures Represents(port, r, m) && |r| >= 2
    ensures r[0] == EntryOf(port, a, m[a]) && r[1] == EntryOf(port, b, m[b])
  {
    EntriesDiffer(port, es, m, a, b);
    hide Represents, EntryOf;
    var i := EntryAt(port, es, m, a);
    SwappedRepresents(port, es, m, 0, i);
    var s := Swapped(es, 0, i);
    var j := EntryAt(port, s, m, b);
    assert j != 0;
    SwappedRepresents(port, s, m, 1, j);
    r := Swapped(s, 1, j);
  }

  lemma EntriesDiffer(port: int, es: seq<RouteEntry>, m: map<Net, nat>, a: Net, b: Net)
    requires Represents(port, es, m) && a in m && b in m && a != b
    ensures EntryOf(port, a, m[a]) != EntryOf(port, b, m[b])
  {
    hide Network, DstOf;
    DstOfInjective(a, b);
  }

  /** A lease of a subnet, with nothing else set. */
  function LeaseOf(net: Net, publicIp: nat): Lease {
    Lease(true, false, net, Net(0, 0), LeaseAttrs(publicIp, None, "udp", None, None), 0, 0)
  }

  /** Every order of a table comes about: by adding its leases in that order. */
  lemma {:induction false} Reachable(port: int, es: seq<RouteEntry>, m: map<Net, nat>) returns (ops: seq<Op>)
    requires Represents(port, es, m)
    ensures ValidOps(ops) && Run(port, ops) == es && Installed(ops) == m
    decreases |es|
  {
    hide Represents, Network, EntryOf, WithRoute, Step, Run, Installed, ValidOps;
    if es == [] {
      ops := [];
      NothingInstalled(port, m);
    } else {
      var n := LastNet(port, es, m);
      WithoutLast(port, es, m, n);
      var before := Reachable(port, es[..|es| - 1], m - {n});
      var e := Event(Added, LeaseOf(n, m[n]));
      ops := before + [LeaseEvent(e)];
      AddedStep(port, es[..|es| - 1], e);
      OneMoreLease(port, before, e);
      assert (m - {n})[n := m[n]] == m;
    }
  }

  lemma {:induction false} NothingInstalled(port: int, m: map<Net, nat>)
    requires Represents(port, [], m)
    ensures m == map[] && ValidOps([]) && Run(port, []) == [] && Installed([]) == m
  {
  }

  lemma {:induction false} OneMoreLease(port: int, ops: seq<Op>, e: Event)
    requires ValidOps(ops) && ValidOp(LeaseEvent(e)) && e.kind == Added
    ensures ValidOps(ops + [LeaseEvent(e)])
    ensures Installed(ops + [LeaseEvent(e)]) == Installed(ops)[Network(W4, e.lease.subnet) := e.lease.attrs.publicIp]
    ensures Run(port, ops + [LeaseEvent(e)]) == Step(port, Run(port, ops), LeaseEvent(e))
  {
    hide Step, Network;
    var later := ops + [LeaseEvent(e)];
    assert later[..|ops|] == ops && later[|ops|] == LeaseEvent(e);
  }

  lemma LastNet(port: int, es: seq<RouteEntry>, m: map<Net, nat>) returns (n: Net)
    requires Represents(port, es, m) && es != []
    ensures n in m && es[|es| - 1] == EntryOf(port, n, m[n])
    ensures Network(W4, n) == n && ValidNet(n) && m[n] < 0x1_0000_0000
  {
    assert es[|es| - 1] in es;
    n :| n in m && es[|es| - 1] == EntryOf(port, n, m[n]);
  }

  /** The last entry is the one that adding its lease to the others appends. */
  lemma WithoutLast(port: int, es: seq<RouteEntry>, m: map<Net, nat>, n: Net)
    requires Represents(port, es, m) && es != [] && n in m && es[|es| - 1] == EntryOf(port, n, m[n])
    ensures Represents(port, es[..|es| - 1], m - {n})
    ensures WithRoute(es[..|es| - 1], EntryOf(port, n, m[n])) == es
  {
    hide Network, Swap32, DstOf;
    RemovedRepresents(port, es, m, n);
    LastByDst(es);
  }

  lemma LastByDst(es: seq<RouteEntry>)
    requires DistinctDsts(es) && es != []
    ensures var front, e := es[..|es| - 1], es[|es| - 1]; WithoutRoute(es, e.dst) == front && WithRoute(front, e) == es
  {
    var k := |es| - 1;
    assert forall j :: 0 <= j < k ==> es[..k][j].dst != es[k].dst;
    assert PositionOf(es, es[k].dst) == k && PositionOf(es[..k], es[k].dst) == k;
  }

  /**
    The order of the table never shows in the answer for an address if and only
    if the address is unambiguous.
   */
  lemma OrderMatters(port: int, es: seq<RouteEntry>, m: map<Net, nat>, ip: nat)
    requires Represents(port, es, m) && ip < 0x1_0000_0000
    ensures (forall es' :: Represents(port, es', m) ==> Answer(es', Swap32(ip)) == Answer(es, Swap32(ip)))
       <==> Unambiguous(m, ip)
  {
    RepresentsValid(port, es, m);
    hide Represents, Contains, Swap32, Answer, Hits, EntryOf;
    forall es' | Represents(port, es', m) && Unambiguous(m, ip)
      ensures Answer(es', Swap32(ip)) == Answer(es, Swap32(ip))
    {
      AnswerIsInstalled(port, es, m, ip);
      AnswerIsInstalled(port, es', m, ip);
    }
    if !Unambiguous(m, ip) {
      var a, b :| a in m && b in m && Contains(W4, a, ip) && Contains(W4, b, ip) && m[a] != m[b];
      var x := FirstTwo(port, es, m, a, b);
      var y := FirstTwo(port, es, m, b, a);
      FrontAnswers(port, x, m, a, ip);
      FrontAnswers(port, y, m, b, ip);
      SwapInjective(m[a], m[b]);
      assert Answer(x, Swap32(ip)) != Answer(y, Swap32(ip));
    }
  }

  lemma RepresentsValid(port: int, es: seq<RouteEntry>, m: map<Net, nat>)
    requires Represents(port, es, m)
    ensures ValidMap(m)
  {
  }

  lemma FrontAnswers(port: int, es: seq<RouteEntry>, m: map<Net, nat>, n: Net, ip: nat)
    requires ValidMap(m) && n in m && es != [] && es[0] == EntryOf(port, n, m[n])
    requires ip < 0x1_0000_0000 && Contains(W4, n, ip)
    ensures Answer(es, Swap32(ip)) == Some((Swap32(m[n]), port % 0x1_0000))
  {
    hide Contains, Swap32, Hits, Network;
    HitIsContains(n, ip, es[0]);
  }

  // ----- what a lookup does to later answers -----

  /** Looking up `other` first does not change the answer for `ip`. */
  ghost predicate Undisturbed(port: int, ops: seq<Op>, other: nat, ip: nat)
    requires ValidOps(ops) && other < 0x1_0000_0000 && ip < 0x1_0000_0000
  {
    Answer(Run(port, ops + [Lookup(other)]), Swap32(ip)) == Answer(Run(port, ops), Swap32(ip))
  }

  lemma {:induction false} OneMoreLookup(port: int, ops: seq<Op>, other: nat)
    requires ValidOps(ops) && other < 0x1_0000_0000
    ensures ValidOps(ops + [Lookup(other)]) && Installed(ops + [Lookup(other)]) == Installed(ops)
    ensures Run(port, ops + [Lookup(other)]) == Reordered(Run(port, ops), Swap32(other))
  {
    var later := ops + [Lookup(other)];
    assert later[..|ops|] == ops && later[|ops|] == Lookup(other);
  }

  /** A lookup never changes a later answer for an unambiguous address. */
  lemma {:induction false} LookupsDoNotInterfere(port: int, ops: seq<Op>, ip: nat, other: nat)
    requires ValidOps(ops) && ip < 0x1_0000_0000 && other < 0x1_0000_0000 && Unambiguous(Installed(ops), ip)
    ensures Undisturbed(port, ops, other, ip)
  {
    OneMoreLookup(port, ops, other);
    hide Run, Installed, Represents, Unambiguous, Answer;
    RunRepresents(port, ops);
    RunRepresents(port, ops + [Lookup(other)]);
    OrderMatters(port, Run(port, ops), Installed(ops), ip);
  }

  /** Of two different masked subnets that share an address one is longer, and the other has an address outside it. */
  lemma Narrower(a: Net, b: Net, ip: nat) returns (narrow: Net, wide: Net, other: nat)
    requires ValidNet(a) && ValidNet(b) && ip < 0x1_0000_0000 && a != b
    requires Network(W4, a) == a && Network(W4, b) == b && Contains(W4, a, ip) && Contains(W4, b, ip)
    ensures (narrow == a && wide == b) || (narrow == b && wide == a)
    ensures other < 0x1_0000_0000 && Contains(W4, wide, other) && !Contains(W4, narrow, other)
  {
    hide And, MaskValue;
    Pow2Values();
    narrow, wide := if a.prefixLen > b.prefixLen then a else b, if a.prefixLen > b.prefixLen then b else a;
    assert narrow.prefixLen != wide.prefixLen;
    hide Contains, Network, Pow2;
    LargerSticksOut(W4, narrow, wide);
    other :| other < Pow2(W4) && Contains(W4, wide, other) && !Contains(W4, narrow, other);
  }

  /** With the narrower subnet first and the wider one second, looking up the latter alone exchanges them. */
  lemma SecondToFront(port: int, es: seq<RouteEntry>, m: map<Net, nat>, narrow: Net, wide: Net, other: nat)
    requires ValidMap(m) && narrow in m && wide in m && |es| >= 2
    requires es[0] == EntryOf(port, narrow, m[narrow]) && es[1] == EntryOf(port, wide, m[wide])
    requires other < 0x1_0000_0000 && Contains(W4, wide, other) && !Contains(W4, narrow, other)
    ensures var r := Reordered(es, Swap32(other)); r != [] && r[0] == EntryOf(port, wide, m[wide])
  {
    hide Contains, Swap32, Hits, Network;
    HitIsContains(narrow, other, es[0]);
    HitIsContains(wide, other, es[1]);
    assert FirstHit(es, Swap32(other)) == 1;
  }

  /**
    Over all histories that install the same subnets as `ops`: no lookup ever
    changes a later answer for the address if and only if it is unambiguous.
   */
  lemma {:induction false} LookupsInterfereExactly(port: int, ops: seq<Op>, ip: nat)
    requires ValidOps(ops) && ip < 0x1_0000_0000
    ensures (forall ops', other: nat | ValidOps(ops') && Installed(ops') == Installed(ops) && other < 0x1_0000_0000 ::
               Undisturbed(port, ops', other, ip))
       <==> Unambiguous(Installed(ops), ip)
  {
    var m := Installed(ops);
    RunRepresents(port, ops);
    RepresentsValid(port, Run(port, ops), m);
    hide Run, Installed, Represents, Answer, Contains, Swap32, EntryOf, Network, Undisturbed, ValidOps, Reordered;
    if Unambiguous(m, ip) {
      forall ops', other: nat | ValidOps(ops') && Installed(ops') == m && other < 0x1_0000_0000
        ensures Undisturbed(port, ops', other, ip)
      {
        LookupsDoNotInterfere(port, ops', ip, other);
      }
    } else {
      var a, b :| a in m && b in m && Contains(W4, a, ip) && Contains(W4, b, ip) && m[a] != m[b];
      var narrow, wide, other := Narrower(a, b, ip);
      var ops' := Disturber(port, Run(port, ops), m, narrow, wide, other, ip);
      assert ValidOps(ops') && Installed(ops') == m && !Undisturbed(port, ops', other, ip);
    }
  }

  /** A history in which looking up `other` moves the answer for `ip` from the narrower subnet to the wider one. */
  lemma {:induction false} Disturber(
    port: int, es: seq<RouteEntry>, m: map<Net, nat>, narrow: Net, wide: Net, other: nat, ip: nat)
    returns (ops: seq<Op>)
    requires Represents(port, es, m) && narrow in m && wide in m && m[narrow] != m[wide]
    requires ip < 0x1_0000_0000 && Contains(W4, narrow, ip) && Contains(W4, wide, ip)
    requires other < 0x1_0000_0000 && Contains(W4, wide, other) && !Contains(W4, narrow, other)
    ensures ValidOps(ops) && Installed(ops) == m && !Undisturbed(port, ops, other, ip)
  {
    RepresentsValid(port, es, m);
    hide Run, Installed, Represents, Answer, Contains, Swap32, EntryOf, Network, ValidOps, Reordered;
    var r := FirstTwo(port, es, m, narrow, wide);
    ops := Reachable(port, r, m);
    OneMoreLookup(port, ops, other);
    SecondToFront(port, r, m, narrow, wide, other);
    FrontAnswers(port, r, m, narrow, ip);
    FrontAnswers(port, Reordered(r, Swap32(other)), m, wide, ip);
    SwapInjective(m[narrow], m[wide]);
  }

  /** 10.0.0.0/16 and then 10.0.0.0/8 are added, with different public addresses. */
  function TenTwice(a: nat, b: nat): seq<Op> {
    [LeaseEvent(Event(Added, LeaseOf(Net(0x0A00_0000, 16), a))),
     LeaseEvent(Event(Added, LeaseOf(Net(0x0A00_0000, 8), b)))]
  }

  /** Then 10.0.0.0 is answered with the former until 10.1.0.0 is looked up, and with the latter from then on. */
  lemma {:induction false} OverlapInterferes(port: int, a: nat, b: nat)
    requires a < 0x1_0000_0000 && b < 0x1_0000_0000 && a != b
    ensures ValidOps(TenTwice(a, b)) && !Undisturbed(port, TenTwice(a, b), 0x0A01_0000, 0x0A00_0000)
    ensures Answer(Run(port, TenTwice(a, b)), Swap32(0x0A00_0000)) == Some((Swap32(a), port % 0x1_0000))
  {
    var n8, n16 := Net(0x0A00_0000, 8), Net(0x0A00_0000, 16);
    var narrow, wide := EntryOf(port, n16, a), EntryOf(port, n8, b);
    TenNets();
    HitIsContains(n16, 0x0A00_0000, narrow);
    HitIsContains(n16, 0x0A01_0000, narrow);
    HitIsContains(n8, 0x0A00_0000, wide);
    HitIsContains(n8, 0x0A01_0000, wide);
    DstOfInjective(n8, n16);
    hide Hits, Swap32, Contains;
    assert narrow.dst != wide.dst && narrow.nextHopIp == Swap32(a) && wide.nextHopIp == Swap32(b);
    hide EntryOf, Network;
    OfTwo(narrow, wide, Swap32(0x0A00_0000), Swap32(0x0A01_0000));
    TenTwiceRuns(port, a, b);
    OneMoreLookup(port, TenTwice(a, b), 0x0A01_0000);
    SwapInjective(a, b);
  }

  lemma {:induction false} TenTwiceRuns(port: int, a: nat, b: nat)
    requires a < 0x1_0000_0000 && b < 0x1_0000_0000
    ensures ValidOps(TenTwice(a, b))
    ensures Run(port, TenTwice(a, b))
         == WithRoute(WithRoute([], EntryOf(port, Net(0x0A00_0000, 16), a)), EntryOf(port, Net(0x0A00_0000, 8), b))
  {
    hide WithRoute, EntryOf, Step;
    var ops := TenTwice(a, b);
    assert ops[..1] == [ops[0]] && [ops[0]][..0] == [];
    AddedStep(port, [], ops[0].event);
    AddedStep(port, WithRoute([], EntryOf(port, Net(0x0A00_0000, 16), a)), ops[1].event);
    assert Run(port, []) == [];
    assert Run(port, [ops[0]]) == Step(port, [], ops[0]);
  }

  lemma TenNets()
    ensures Contains(W4, Net(0x0A00_0000, 8), 0x0A01_0000) && !Contains(W4, Net(0x0A00_0000, 16), 0x0A01_0000)
    ensures Contains(W4, Net(0x0A00_0000, 8), 0x0A00_0000) && Contains(W4, Net(0x0A00_0000, 16), 0x0A00_0000)
  {
    Pow2Values();
    Pow2Add(8, 16);
    assert BlockSize(W4, 8) == 0x100_0000 && BlockSize(W4, 16) == 0x1_0000;
    ContainsByBlock(W4, Net(0x0A00_0000, 8), 0x0A01_0000);
    ContainsByBlock(W4, Net(0x0A00_0000, 16), 0x0A01_0000);
  }

  lemma {:induction false} OfTwo(x: RouteEntry, y: RouteEntry, ip: nat, other: nat)
    requires x.dst != y.dst && Hits(x, ip) && Hits(y, ip) && Hits(y, other) && !Hits(x, other)
    ensures WithRoute(WithRoute([], x), y) == [x, y] && Answer([x, y], ip) == Some((x.nextHopIp, x.nextHopPort))
    ensures Answer(Reordered([x, y], other), ip) == Some((y.nextHopIp, y.nextHopPort))
  {
    assert [x][1..] == [] && [x, y][1..] == [y];
    assert FirstHit([y], other) == 0;
  }
}
