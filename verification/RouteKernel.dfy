/**
  From the inputs of the watcher to the fields of the kernel routes: the results
  of the host-gw network, written without the functions that compute them.
 */
module RouteKernel {
  import opened Base
  import opened IpNet
  import opened Lease
  import opened LeaseRuns
  import opened LeaseEffects
  import opened RouteNetwork
  import opened RouteRuns
  import opened RouteFaults
  import opened RouteAgreement

  /** The kernel sends the destination via the gateway on the link, without flags. */
  predicate KernelRoute(table: Table, q: Slot, gateway: IpAddr, link: nat) {
    && q in table && table[q].slot == q && table[q].gateway == Some(gateway)
    && table[q].oif == Some(link) && !table[q].onlink
  }

  /** A node without a public IPv6 address counts as the zero address. */
  function PublicV6(l: Lease): nat {
    if l.attrs.publicIpv6 == None then 0 else l.attrs.publicIpv6.value
  }

  ghost predicate V4Installed(table: Table, l: Lease, link: nat) {
    KernelRoute(table, Slot(V4(l.subnet.ip), l.subnet.prefixLen), V4(l.attrs.publicIp), link)
  }

  ghost predicate V6Installed(table: Table, l: Lease, link: nat) {
    KernelRoute(table, Slot(V6(l.ipv6Subnet.ip), l.ipv6Subnet.prefixLen), V6(PublicV6(l)), link)
  }

  predicate GoodPrefixes(l: Lease) {
    l.subnet.prefixLen <= 32 && l.ipv6Subnet.prefixLen <= 128
  }

  /** In IPv4: every lease of another node that satisfies `p` has its route, and every new route is one of those. */
  ghost predicate V4Has(base: Table, own: Lease, link: nat, p: Lease -> bool, table: Table) {
    && (forall l :: p(l) && KeyOf(l) != KeyOf(own) && own.enableIpv4 ==> V4Installed(table, l, link))
    && (forall q :: q in table && q !in base && q.dst.V4? ==> exists l :: V4RouteOf(own, link, p, table, q, l))
  }

  ghost predicate V4RouteOf(own: Lease, link: nat, p: Lease -> bool, table: Table, q: Slot, l: Lease) {
    && p(l) && KeyOf(l) != KeyOf(own) && own.enableIpv4
    && q == Slot(V4(l.subnet.ip), l.subnet.prefixLen) && V4Installed(table, l, link)
  }

  /** In IPv6 likewise. */
  ghost predicate V6Has(base: Table, own: Lease, link: nat, p: Lease -> bool, table: Table) {
    && (forall l :: p(l) && KeyOf(l) != KeyOf(own) && own.enableIpv6 ==> V6Installed(table, l, link))
    && (forall q :: q in table && q !in base && q.dst.V6? ==> exists l :: V6RouteOf(own, link, p, table, q, l))
  }

  ghost predicate V6RouteOf(own: Lease, link: nat, p: Lease -> bool, table: Table, q: Slot, l: Lease) {
    && p(l) && KeyOf(l) != KeyOf(own) && own.enableIpv6
    && q == Slot(V6(l.ipv6Subnet.ip), l.ipv6Subnet.prefixLen) && V6Installed(table, l, link)
  }

  /** The kernel has the routes of the leases of other nodes that satisfy `p`, on top of the initial table. */
  ghost predicate KernelHas(base: Table, own: Lease, link: nat, p: Lease -> bool, table: Table) {
    && V4Has(base, own, link, p, table) && V6Has(base, own, link, p, table)
    && (forall q :: q in base ==> q in table && table[q] == base[q])
  }

  /** Agreement of leases, lists and kernel, by the fields of the kernel routes. */
  lemma AgreesByFields(g: Setting, leases: seq<Lease>, p: Lease -> bool, st: State)
    requires Agrees(g, leases, st) && forall l :: l in leases ==> GoodPrefixes(l)
    requires forall l :: l in leases <==> p(l)
    ensures KernelHas(g.base, g.own, g.link, p, st.table)
  {
    hide V4Has, V6Has, AgreesOn;
    V4ByFields(g, leases, p, View(st.table, st.routes));
    V6ByFields(g, leases, p, View(st.table, st.v6Routes));
  }

  lemma V4ByFields(g: Setting, leases: seq<Lease>, p: Lease -> bool, v: View)
    requires AgreesOn(g, Inet, leases, v) && forall l :: l in leases ==> GoodPrefixes(l)
    requires forall l :: l in leases <==> p(l)
    ensures V4Has(g.base, g.own, g.link, p, v.table)
  {
    hide KeyOf, OnePerSlot;
    forall l | l in leases && KeyOf(l) != KeyOf(g.own) && g.own.enableIpv4
      ensures V4Installed(v.table, l, g.link) && SlotFor(g, Inet, l) == Slot(V4(l.subnet.ip), l.subnet.prefixLen)
    {
      assert RouteFor(g.link, Inet, l) in v.routes;
    }
    forall q | q in v.table && q !in g.base && q.dst.V4?
      ensures exists l :: V4RouteOf(g.own, g.link, p, v.table, q, l)
    {
      var l :| l in leases && KeyOf(l) != KeyOf(g.own) && q == SlotFor(g, Inet, l);
      assert V4RouteOf(g.own, g.link, p, v.table, q, l);
    }
  }

  lemma V6ByFields(g: Setting, leases: seq<Lease>, p: Lease -> bool, v: View)
    requires AgreesOn(g, Inet6, leases, v) && forall l :: l in leases ==> GoodPrefixes(l)
    requires forall l :: l in leases <==> p(l)
    ensures V6Has(g.base, g.own, g.link, p, v.table)
  {
    hide KeyOf, OnePerSlot;
    forall l | l in leases && KeyOf(l) != KeyOf(g.own) && g.own.enableIpv6
      ensures V6Installed(v.table, l, g.link)
      ensures SlotFor(g, Inet6, l) == Slot(V6(l.ipv6Subnet.ip), l.ipv6Subnet.prefixLen)
    {
      assert RouteFor(g.link, Inet6, l) in v.routes;
    }
    forall q | q in v.table && q !in g.base && q.dst.V6?
      ensures exists l :: V6RouteOf(g.own, g.link, p, v.table, q, l)
    {
      var l :| l in leases && KeyOf(l) != KeyOf(g.own) && q == SlotFor(g, Inet6, l);
      assert V6RouteOf(g.own, g.link, p, v.table, q, l);
    }
  }

  // ----- the conditions by fields -----

  /** A destination that the node used before belongs to its own subnet and has no gateway. */
  ghost predicate OwnOnly(base: Table, own: Lease, l: Lease, q: Slot) {
    q in base ==> KeyOf(l) == KeyOf(own) && base[q].gateway.None?
  }

  /** The conditions on the leases of a setting, written out. */
  ghost predicate Fit(g: Setting) {
    && ValidTable(g.base)
    && (forall l :: l in g.all ==> SameFlags(g.own, l) && l.attrs.backendType == "host-gw" && GoodPrefixes(l))
    && (forall l :: l in g.all && g.own.enableIpv4 ==>
          OwnOnly(g.base, g.own, l, Slot(V4(l.subnet.ip), l.subnet.prefixLen)))
    && (forall l :: l in g.all && g.own.enableIpv6 ==>
          OwnOnly(g.base, g.own, l, Slot(V6(l.ipv6Subnet.ip), l.ipv6Subnet.prefixLen)))
    && (g.own.enableIpv4 && g.own.enableIpv6 ==>
          forall a, b :: a in g.all && b in g.all ==> (a.subnet == b.subnet <==> a.ipv6Subnet == b.ipv6Subnet))
  }

  lemma FitIsAdmissible(g: Setting)
    requires Fit(g)
    ensures Admissible(g)
  {
    forall l, f | l in g.all && Uses(g.own, f)
      ensures OwnOnly(g.base, g.own, l, SlotFor(g, f, l))
    {
      SlotByFields(g, l);
    }
    forall a, b, f | a in g.all && b in g.all && Uses(g.own, f) && SlotFor(g, f, a) == SlotFor(g, f, b)
      ensures KeyOf(a) == KeyOf(b)
    {
      SlotByFields(g, a);
      SlotByFields(g, b);
      hide SlotFor;
    }
    hide SlotFor, KeyOf, ValidTable;
  }

  lemma SlotByFields(g: Setting, l: Lease)
    requires GoodPrefixes(l)
    ensures SlotFor(g, Inet, l) == Slot(V4(l.subnet.ip), l.subnet.prefixLen)
    ensures SlotFor(g, Inet6, l) == Slot(V6(l.ipv6Subnet.ip), l.ipv6Subnet.prefixLen)
  {
  }

  /** A lease that stays stored keeps its public addresses. */
  ghost predicate QuietFields(own: Lease, ls: seq<Lease>, snapshot: seq<Lease>) {
    forall a, b :: a in ls && b in snapshot && KeyOf(a) == KeyOf(b) != KeyOf(own) ==>
      && (own.enableIpv4 ==> a.attrs.publicIp == b.attrs.publicIp)
      && (own.enableIpv6 ==> PublicV6(a) == PublicV6(b))
  }

  lemma QuietByFields(own: Lease, link: nat, ls: seq<Lease>, snapshot: seq<Lease>)
    requires Uniform(own, ls) && Uniform(own, snapshot)
    ensures Quiet(own, ls, snapshot, Images(own, link)) <==> QuietFields(own, ls, snapshot)
  {
    forall a, b | a in ls && b in snapshot && KeyOf(a) == KeyOf(b) != KeyOf(own)
      ensures Images(own, link)(a) == Images(own, link)(b) <==>
        (own.enableIpv4 ==> a.attrs.publicIp == b.attrs.publicIp) && (own.enableIpv6 ==> PublicV6(a) == PublicV6(b))
    {
    }
    hide KeyOf;
  }

  /** No reset of the run changes a public address of a lease that stays stored. */
  ghost predicate QuietRunFields(own: Lease, inputs: seq<Input>) {
    forall i :: 0 <= i < |inputs| && inputs[i].Reset? ==>
      QuietFields(own, Run(own, inputs[..i]).leases, inputs[i].snapshot)
  }

  lemma {:induction false} QuietRunByFields(own: Lease, link: nat, inputs: seq<Input>)
    requires ProperRun(own, inputs)
    ensures QuietRun(own, inputs, Images(own, link)) <==> QuietRunFields(own, inputs)
  {
    hide Run, Quiet, QuietFields;
    forall i | 0 <= i < |inputs| && inputs[i].Reset?
      ensures Quiet(own, Run(own, inputs[..i]).leases, inputs[i].snapshot, Images(own, link))
         <==> QuietFields(own, Run(own, inputs[..i]).leases, inputs[i].snapshot)
    {
      assert Proper(own, inputs[i]) && ProperRun(own, inputs[..i]);
      StoredProper(own, inputs[..i]);
      QuietByFields(own, link, Run(own, inputs[..i]).leases, inputs[i].snapshot);
    }
  }

  ghost predicate FitRun(g: Setting, inputs: seq<Input>) {
    && Fit(g) && ProperRun(g.own, inputs) && QuietRunFields(g.own, inputs)
    && forall i :: 0 <= i < |inputs| ==> AllInput(l => l in g.all, inputs[i])
  }

  lemma {:induction false} FitRunIsGood(g: Setting, inputs: seq<Input>)
    requires FitRun(g, inputs)
    ensures GoodRun(g, inputs) && forall l :: l in Run(g.own, inputs).leases ==> l in g.all && GoodPrefixes(l)
  {
    FitIsAdmissible(g);
    QuietRunByFields(g.own, g.link, inputs);
    hide Admissible, QuietRun, QuietRunFields, Run;
    RunInventsNothing(l => l in g.all, g.own, inputs);
  }

  /** A lease is stored after the run, in terms of its inputs. */
  ghost predicate StoredBy(own: Lease, inputs: seq<Input>, l: Lease) {
    StoredAfter(own, LastSnapshot(inputs), EventsSince(inputs), l)
  }

  /**
    From inputs to kernel: after every fit run the kernel has, beyond the initial
    table, exactly the routes of the leases of other nodes whose last event since
    the last snapshot added them, or which the snapshot lists and no event touched.
   */
  lemma {:induction false} InputsToKernel(g: Setting, inputs: seq<Input>)
    requires FitRun(g, inputs)
    ensures var st := HandledAll(HostGw(g.own, g.link), State(g.base, [], []), Run(g.own, inputs).batch);
      KernelHas(g.base, g.own, g.link, l => StoredBy(g.own, inputs, l), st.table)
  {
    FitRunIsGood(g, inputs);
    hide GoodRun, Fit, HandledAll, HostGw, Agrees, Run, StoredBy;
    EndToEnd(g, inputs);
    var o := Run(g.own, inputs);
    StoredByIs(g.own, inputs);
    AgreesByFields(g, o.leases, l => StoredBy(g.own, inputs, l),
                   HandledAll(HostGw(g.own, g.link), State(g.base, [], []), o.batch));
  }

  /** The same with outsiders who delete routes, after the next check. */
  lemma {:induction false} InputsToKernelWithFaults(g: Setting, inputs: seq<Input>, steps: seq<Step>)
    requires FitRun(g, inputs) && EventsOf(steps) == Run(g.own, inputs).batch
    requires SpareBase(g.base, steps) && AllSafe(HostGw(g.own, g.link), g.base, steps)
    ensures var st := Checked(AfterAll(HostGw(g.own, g.link), State(g.base, [], []), steps));
      KernelHas(g.base, g.own, g.link, l => StoredBy(g.own, inputs, l), st.table)
  {
    FitRunIsGood(g, inputs);
    hide GoodRun, Fit, AfterAll, Checked, HostGw, Agrees, Run, StoredBy, AllSafe;
    EndToEndWithFaults(g, inputs, steps);
    var o := Run(g.own, inputs);
    var st := Checked(AfterAll(HostGw(g.own, g.link), State(g.base, [], []), steps));
    StoredByIs(g.own, inputs);
    AgreesByFields(g, o.leases, l => StoredBy(g.own, inputs, l), st);
  }

  lemma {:induction false} StoredByIs(own: Lease, inputs: seq<Input>)
    requires ProperRun(own, inputs)
    ensures forall l :: l in Run(own, inputs).leases <==> StoredBy(own, inputs, l)
  {
    hide Run, StoredAfter;
    forall l
      ensures l in Run(own, inputs).leases <==> StoredBy(own, inputs, l)
    {
      RunStores(own, inputs, l);
    }
  }

  // ----- events that are none of the network's business -----

  /** The events of the network's own type. */
  function OwnType(backendType: string, batch: seq<Event>): seq<Event> {
    if batch == [] then []
    else
      var before, e := OwnType(backendType, batch[..|batch| - 1]), batch[|batch| - 1];
      if e.lease.attrs.backendType == backendType then before + [e] else before
  }

  /** Leases of other backend types are as if they were not there. */
  lemma {:induction false} OtherTypesIgnored(b: Backend, st: State, batch: seq<Event>)
    ensures HandledAll(b, st, batch) == HandledAll(b, st, OwnType(b.backendType, batch))
  {
    if batch == [] {
    } else {
      var n := |batch| - 1;
      OtherTypesIgnored(b, st, batch[..n]);
      var before := OwnType(b.backendType, batch[..n]);
      assert (before + [batch[n]])[..|before|] == before;
    }
  }

  /** Without a route function for IPv4 an event that enables it is dropped, whatever it says of IPv6. */
  lemma NoRouteFunction(b: Backend, st: State, e: Event)
    requires e.lease.enableIpv4 && b.getRoute == None
    ensures Handled(b, st, e) == st
  {
  }
}
