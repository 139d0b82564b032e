/**
  Stored leases, tracked lists and kernel table of a host-gw network, for IPv4,
  IPv6 and both together: when the three agree, without and with outsiders who
  delete routes.
 */
module RouteAgreement {
  import opened Base
  import opened IpNet
  import opened Lease
  import opened LeaseRuns
  import opened RouteNetwork
  import opened RouteRuns
  import opened RouteFaults

  const HOST_GW := "host-gw"

  /** The route to a lease's subnet of one family via the node's public address of that family. */
  function RouteFor(link: nat, family: Family, l: Lease): RouteSpec {
    match family
    case Inet => RouteSpec(V4(l.subnet.ip), l.subnet.prefixLen % 256, V4(l.attrs.publicIp), link, Inet, false)
    case Inet6 =>
      var gateway := if l.attrs.publicIpv6.Some? then l.attrs.publicIpv6.value else 0;
      RouteSpec(V6(l.ipv6Subnet.ip), l.ipv6Subnet.prefixLen % 256, V6(gateway), link, Inet6, false)
  }

  /** The network of a node: a route function for each family it uses. */
  function HostGw(own: Lease, link: nat): Backend {
    Backend(HOST_GW,
            if own.enableIpv4 then Some((l: Lease) => RouteFor(link, Inet, l)) else None,
            if own.enableIpv6 then Some((l: Lease) => RouteFor(link, Inet6, l)) else None)
  }

  predicate Uses(own: Lease, family: Family) {
    if family == Inet then own.enableIpv4 else own.enableIpv6
  }

  /** The routes that a lease stands for. */
  function Images(own: Lease, link: nat): Lease -> (Option<RouteSpec>, Option<RouteSpec>) {
    (l: Lease) =>
      (if own.enableIpv4 then Some(RouteFor(link, Inet, l)) else None,
       if own.enableIpv6 then Some(RouteFor(link, Inet6, l)) else None)
  }

  function ImageOf(family: Family, image: (Option<RouteSpec>, Option<RouteSpec>)): Option<RouteSpec> {
    if family == Inet then image.0 else image.1
  }

  /** A node with its initial kernel table, and all leases that it comes to see. */
  datatype Setting = Setting(base: Table, own: Lease, link: nat, all: seq<Lease>)

  function SlotFor(g: Setting, family: Family, l: Lease): Slot {
    SlotOf(RouteFor(g.link, family, l))
  }

  /**
    The leases have the node's family flags and backend type, and destinations that
    the node did not use before, but for a route without gateway to its own subnet.
    Leases that share a destination of one family are leases of the same subnets.
   */
  ghost predicate Admissible(g: Setting) {
    && ValidTable(g.base)
    && (forall l :: l in g.all ==> SameFlags(g.own, l) && l.attrs.backendType == HOST_GW)
    && (forall l, f :: l in g.all && Uses(g.own, f) && SlotFor(g, f, l) in g.base ==>
          KeyOf(l) == KeyOf(g.own) && g.base[SlotFor(g, f, l)].gateway.None?)
    && (forall a, b, f :: a in g.all && b in g.all && Uses(g.own, f) && SlotFor(g, f, a) == SlotFor(g, f, b) ==>
          KeyOf(a) == KeyOf(b))
  }

  /** With one family the last condition is free: a destination is a subnet. */
  lemma SingleFamilyPaired(g: Setting, a: Lease, b: Lease, f: Family)
    requires g.own.enableIpv4 != g.own.enableIpv6 && Uses(g.own, f) && SameFlags(g.own, a) && SameFlags(g.own, b)
    requires a.subnet.prefixLen <= 32 && a.ipv6Subnet.prefixLen <= 128
    requires b.subnet.prefixLen <= 32 && b.ipv6Subnet.prefixLen <= 128
    ensures SlotFor(g, f, a) == SlotFor(g, f, b) <==> KeyOf(a) == KeyOf(b)
  {
  }

  lemma KeyFixesSlot(g: Setting, f: Family, a: Lease, b: Lease)
    requires Uses(g.own, f) && SameFlags(g.own, a) && SameFlags(g.own, b) && KeyOf(a) == KeyOf(b)
    ensures SlotFor(g, f, a) == SlotFor(g, f, b)
  {
  }

  // ----- the routes that events describe, by destination -----

  type Routes = map<Slot, RouteSpec>

  function ApplySlot(g: Setting, family: Family, m: Routes, e: Event): Routes {
    match e.kind
    case Added => m[SlotFor(g, family, e.lease) := RouteFor(g.link, family, e.lease)]
    case Removed => m - {SlotFor(g, family, e.lease)}
  }

  function SlotFold(g: Setting, family: Family, events: seq<Event>): Routes {
    if events == [] || !Uses(g.own, family) then map[]
    else ApplySlot(g, family, SlotFold(g, family, events[..|events| - 1]), events[|events| - 1])
  }

  /** The fold by destination and the fold by subnet hold the same routes. */
  ghost predicate SameRoutes(
    g: Setting, family: Family, m: map<Key, (Option<RouteSpec>, Option<RouteSpec>)>, slots: Routes) {
    && (forall l :: l in g.all ==> (SlotFor(g, family, l) in slots <==> KeyOf(l) in m))
    && (forall l :: l in g.all && KeyOf(l) in m ==> Some(slots[SlotFor(g, family, l)]) == ImageOf(family, m[KeyOf(l)]))
    && (forall q :: q in slots ==> exists l :: l in g.all && q == SlotFor(g, family, l))
  }

  lemma SameRoutesStep(
    g: Setting, family: Family, m: map<Key, (Option<RouteSpec>, Option<RouteSpec>)>, slots: Routes, e: Event)
    requires Admissible(g) && Uses(g.own, family) && e.lease in g.all && SameRoutes(g, family, m, slots)
    ensures SameRoutes(g, family, Apply(Images(g.own, g.link), m, e), ApplySlot(g, family, slots, e))
  {
    hide KeyOf, RouteFor;
    forall l | l in g.all
      ensures SlotFor(g, family, l) == SlotFor(g, family, e.lease) <==> KeyOf(l) == KeyOf(e.lease)
    {
      if KeyOf(l) == KeyOf(e.lease) {
        KeyFixesSlot(g, family, l, e.lease);
      }
    }
    hide SlotFor, Admissible, Uses;
    SameRoutesAt(g, family, m, slots, e, SlotFor(g, family, e.lease), KeyOf(e.lease));
  }

  lemma SameRoutesAt(
    g: Setting, family: Family, m: map<Key, (Option<RouteSpec>, Option<RouteSpec>)>, slots: Routes, e: Event,
    q0: Slot, k0: Key)
    requires SameRoutes(g, family, m, slots) && Uses(g.own, family) && e.lease in g.all
    requires q0 == SlotFor(g, family, e.lease) && k0 == KeyOf(e.lease)
    requires forall l :: l in g.all ==> (SlotFor(g, family, l) == q0 <==> KeyOf(l) == k0)
    ensures SameRoutes(g, family, Apply(Images(g.own, g.link), m, e), ApplySlot(g, family, slots, e))
  {
    hide KeyOf, RouteFor, SlotFor;
  }

  lemma {:induction false} FoldsAgree(g: Setting, family: Family, events: seq<Event>)
    requires Admissible(g) && Uses(g.own, family) && AllEvents(l => l in g.all, events)
    ensures SameRoutes(g, family, ApplyAll(Images(g.own, g.link), map[], events), SlotFold(g, family, events))
  {
    hide Admissible, SameRoutes, ApplySlot;
    if events == [] {
      NothingSame(g, family);
    } else {
      var n := |events| - 1;
      assert events[n] in events;
      FoldsAgree(g, family, events[..n]);
      var m := ApplyAll(Images(g.own, g.link), map[], events[..n]);
      SameRoutesStep(g, family, m, SlotFold(g, family, events[..n]), events[n]);
    }
  }

  lemma NothingSame(g: Setting, family: Family)
    ensures SameRoutes(g, family, map[], map[])
  {
  }

  /** Every image in the fold has a route for exactly the families the node uses. */
  lemma {:induction false} ImagesHaveShape(own: Lease, link: nat, events: seq<Event>)
    ensures var m := ApplyAll(Images(own, link), map[], events);
      forall k :: k in m ==> (m[k].0.Some? <==> own.enableIpv4) && (m[k].1.Some? <==> own.enableIpv6)
  {
    hide RouteFor, KeyOf;
    if events == [] {
      assert ApplyAll(Images(own, link), map[], events) == map[];
    } else {
      var n, img := |events| - 1, Images(own, link);
      ImagesHaveShape(own, link, events[..n]);
      assert ApplyAll(img, map[], events) == Apply(img, ApplyAll(img, map[], events[..n]), events[n]);
    }
  }

  // ----- one family -----

  /**
    The tracked list is exactly the routes of `m`; the kernel table has, in this
    family, the initial routes and of the routes of `m` those that nobody deleted.
   */
  ghost predicate Synced(base: Table, family: Family, m: Routes, v: View) {
    && ValidTable(v.table) && Loose(family, v.table, v.routes)
    && (forall q :: q in m ==> SlotOf(m[q]) == q && m[q] in v.routes && !m[q].onlink && q !in base)
    && (forall x :: x in v.routes ==> SlotOf(x) in m && m[SlotOf(x)] == x)
    && (forall q :: q in base && FamilyOf(q.dst) == family ==> q in v.table && v.table[q] == base[q])
    && (forall q :: q in v.table && FamilyOf(q.dst) == family ==>
          q in base || (q in m && v.table[q] == ToMessage(m[q])))
  }

  lemma AddedSynced(base: Table, family: Family, m: Routes, v: View, s: RouteSpec)
    requires Synced(base, family, m, v) && WellFormed(family, s) && !s.onlink && SlotOf(s) !in base && !Blind(v, s)
    ensures Synced(base, family, m[SlotOf(s) := s], RouteAdded(v, family, s))
  {
    hide RouteAdded;
    RouteAddedEffect(family, v, s);
    var v' := RouteAdded(v, family, s);
    AddedIsInstalled(base, family, m, v, s, v');
    AddedSyncedAt(base, family, m, v, s, v', m[SlotOf(s) := s]);
  }

  /** The added route is tracked and installed as itself, and is alone at its destination. */
  lemma AddedIsInstalled(base: Table, family: Family, m: Routes, v: View, s: RouteSpec, v': View)
    requires Synced(base, family, m, v) && AddedEffect(family, v, s, v')
    requires WellFormed(family, s) && !s.onlink && SlotOf(s) !in base
    ensures s in v'.routes && v'.table[SlotOf(s)] == ToMessage(s)
    ensures forall x :: x in v'.routes && SlotOf(x) == SlotOf(s) ==> x == s
  {
    assert forall x :: x in v.routes && RouteSpecEqual(x, s) ==> x == s;
    if InKernel(v.table, s) {
      var r := m[SlotOf(s)];
      assert r in v.routes && RouteSpecEqual(r, s);
    }
    var x :| x in v'.routes && RouteSpecEqual(x, s);
    assert x == s;
    forall y | y in v'.routes && SlotOf(y) == SlotOf(s)
      ensures y == s
    {
      var i :| 0 <= i < |v'.routes| && v'.routes[i] == s;
      var j :| 0 <= j < |v'.routes| && v'.routes[j] == y;
    }
  }

  lemma AddedSyncedAt(base: Table, family: Family, m: Routes, v: View, s: RouteSpec, v': View, m': Routes)
    requires Synced(base, family, m, v) && AddedEffect(family, v, s, v') && m' == m[SlotOf(s) := s]
    requires !s.onlink && SlotOf(s) !in base
    requires s in v'.routes && v'.table[SlotOf(s)] == ToMessage(s)
    requires forall x :: x in v'.routes && SlotOf(x) == SlotOf(s) ==> x == s
    ensures Synced(base, family, m', v')
  {
    hide ToMessage, RouteSpecEqual, InKernel, Loose, ValidTable;
    forall q | q in m'
      ensures SlotOf(m'[q]) == q && m'[q] in v'.routes
    {
      if q != SlotOf(s) {
        assert m[q] in v.routes && SlotOf(m[q]) != SlotOf(s);
      }
    }
    forall x | x in v'.routes
      ensures SlotOf(x) in m' && m'[SlotOf(x)] == x
    {
      if SlotOf(x) != SlotOf(s) {
        assert x in v.routes;
      }
    }
  }

  lemma RemovedSynced(base: Table, family: Family, m: Routes, v: View, s: RouteSpec)
    requires Synced(base, family, m, v) && WellFormed(family, s) && !s.onlink
    requires SlotOf(s) in m ==> m[SlotOf(s)] == s
    requires SlotOf(s) in base ==> base[SlotOf(s)].gateway.None?
    ensures Synced(base, family, m - {SlotOf(s)}, RouteRemoved(v, s))
  {
    hide RouteRemoved;
    RouteRemovedEffect(family, v, s);
    forall x | x in v.routes
      ensures RouteSpecEqual(x, s) <==> SlotOf(x) == SlotOf(s)
    {
    }
    assert InKernel(v.table, s) <==> SlotOf(s) in v.table && SlotOf(s) in m;
    RemovedSyncedAt(base, family, m, v, SlotOf(s), RouteRemoved(v, s));
  }

  lemma RemovedSyncedAt(base: Table, family: Family, m: Routes, v: View, q0: Slot, v': View)
    requires Synced(base, family, m, v) && ValidTable(v'.table) && Loose(family, v'.table, v'.routes)
    requires v'.table == if q0 in v.table && q0 in m then v.table - {q0} else v.table
    requires forall x :: x in v'.routes <==> x in v.routes && SlotOf(x) != q0
    ensures Synced(base, family, m - {q0}, v')
  {
    hide ToMessage, Loose, ValidTable;
  }

  /** Only the destinations of the family matter. */
  lemma SyncedElsewhere(base: Table, family: Family, m: Routes, t: Table, u: Table, routes: seq<RouteSpec>)
    requires Synced(base, family, m, View(t, routes)) && ValidTable(u)
    requires forall q: Slot :: FamilyOf(q.dst) == family ==> (q in u <==> q in t) && (q in t ==> u[q] == t[q])
    ensures Synced(base, family, m, View(u, routes))
  {
    assert forall x :: x in routes ==> FamilyOf(SlotOf(x).dst) == family;
  }

  // ----- both families -----

  ghost predicate StateSynced(g: Setting, events: seq<Event>, st: State) {
    && Synced(g.base, Inet, SlotFold(g, Inet, events), View(st.table, st.routes))
    && Synced(g.base, Inet6, SlotFold(g, Inet6, events), View(st.table, st.v6Routes))
  }

  /** The event may come next: its lease is known, is not added for the own subnet, and is removed as it was added. */
  ghost predicate Expected(g: Setting, events: seq<Event>, e: Event) {
    && e.lease in g.all
    && (e.kind == Added ==> KeyOf(e.lease) != KeyOf(g.own))
    && (forall f :: e.kind == Removed && Uses(g.own, f) && SlotFor(g, f, e.lease) in SlotFold(g, f, events) ==>
          SlotFold(g, f, events)[SlotFor(g, f, e.lease)] == RouteFor(g.link, f, e.lease))
  }

  lemma {:induction false} OnFamilySynced(g: Setting, family: Family, events: seq<Event>, e: Event, v: View)
    requires Admissible(g) && Uses(g.own, family) && Expected(g, events, e)
    requires Synced(g.base, family, SlotFold(g, family, events), v)
    requires e.kind == Added ==> !Blind(v, RouteFor(g.link, family, e.lease))
    ensures var v' := OnFamily(family, e.kind, v, RouteFor(g.link, family, e.lease));
      && Synced(g.base, family, SlotFold(g, family, events + [e]), v')
      && ValidTable(v'.table)
      && forall q: Slot :: FamilyOf(q.dst) != family ==>
           (q in v'.table <==> q in v.table) && (q in v.table ==> v'.table[q] == v.table[q])
  {
    var s := RouteFor(g.link, family, e.lease);
    assert WellFormed(family, s) && SlotFor(g, family, e.lease) == SlotOf(s) && !s.onlink;
    assert FamilyOf(SlotOf(s).dst) == family;
    FoldStep(g, family, events, e);
    hide RouteFor, SlotFold, RouteAdded, RouteRemoved, Blind;
    OnFamilyLoose(family, e.kind, v, s);
    if e.kind == Added {
      AddedSynced(g.base, family, SlotFold(g, family, events), v, s);
    } else {
      RemovedSynced(g.base, family, SlotFold(g, family, events), v, s);
    }
  }

  lemma {:induction false} FoldStep(g: Setting, family: Family, events: seq<Event>, e: Event)
    ensures SlotFold(g, family, events + [e]) ==
      if Uses(g.own, family) then ApplySlot(g, family, SlotFold(g, family, events), e) else map[]
  {
    hide ApplySlot;
    assert (events + [e])[..|events|] == events;
  }

  lemma {:induction false} V4Synced(g: Setting, events: seq<Event>, e: Event, st: State)
    requires Admissible(g) && g.own.enableIpv4 && Expected(g, events, e) && StateSynced(g, events, st)
    requires e.kind == Added ==> !Blind(View(st.table, st.routes), RouteFor(g.link, Inet, e.lease))
    ensures var st' := V4Handled(HostGw(g.own, g.link), st, e);
      && Synced(g.base, Inet, SlotFold(g, Inet, events + [e]), View(st'.table, st'.routes))
      && Synced(g.base, Inet6, SlotFold(g, Inet6, events), View(st'.table, st'.v6Routes))
      && st'.v6Routes == st.v6Routes && forall q: Slot :: q.dst.V6? ==> (q in st'.table <==> q in st.table)
  {
    hide OnFamily, RouteFor, SlotFold, Synced, Blind, Expected, Admissible;
    OnFamilySynced(g, Inet, events, e, View(st.table, st.routes));
    var v := OnFamily(Inet, e.kind, View(st.table, st.routes), RouteFor(g.link, Inet, e.lease));
    SyncedElsewhere(g.base, Inet6, SlotFold(g, Inet6, events), st.table, v.table, st.v6Routes);
  }

  lemma {:induction false} V6Synced(g: Setting, events: seq<Event>, e: Event, st: State, m4: Routes)
    requires Admissible(g) && g.own.enableIpv6 && Expected(g, events, e)
    requires Synced(g.base, Inet, m4, View(st.table, st.routes))
    requires Synced(g.base, Inet6, SlotFold(g, Inet6, events), View(st.table, st.v6Routes))
    requires e.kind == Added ==> !Blind(View(st.table, st.v6Routes), RouteFor(g.link, Inet6, e.lease))
    ensures var st' := V6Handled(HostGw(g.own, g.link), st, e);
      && Synced(g.base, Inet, m4, View(st'.table, st'.routes))
      && Synced(g.base, Inet6, SlotFold(g, Inet6, events + [e]), View(st'.table, st'.v6Routes))
  {
    hide OnFamily, RouteFor, SlotFold, Synced, Blind, Expected, Admissible;
    OnFamilySynced(g, Inet6, events, e, View(st.table, st.v6Routes));
    var v := OnFamily(Inet6, e.kind, View(st.table, st.v6Routes), RouteFor(g.link, Inet6, e.lease));
    SyncedElsewhere(g.base, Inet, m4, st.table, v.table, st.routes);
  }

  lemma HandledSynced(g: Setting, events: seq<Event>, e: Event, st: State)
    requires Admissible(g) && Expected(g, events, e) && StateSynced(g, events, st)
    requires Safe(HostGw(g.own, g.link), st, Handle(e))
    ensures StateSynced(g, events + [e], Handled(HostGw(g.own, g.link), st, e))
  {
    assert SameFlags(g.own, e.lease) && e.lease.attrs.backendType == HOST_GW;
    assert FamilyOf(SlotFor(g, Inet6, e.lease).dst) == Inet6;
    FoldStep(g, Inet, events, e);
    FoldStep(g, Inet6, events, e);
    hide V4Handled, V6Handled, RouteFor, Synced, Expected, Admissible, ApplySlot;
    var b, st1 := HostGw(g.own, g.link), st;
    UnusedEmpty(g, events);
    if g.own.enableIpv4 {
      V4Synced(g, events, e, st);
      st1 := V4Handled(b, st, e);
    }
    if g.own.enableIpv6 {
      BlindElsewhere(st.table, st1.table, st.v6Routes, RouteFor(g.link, Inet6, e.lease));
      hide Blind;
      V6Synced(g, events, e, st1, SlotFold(g, Inet, events + [e]));
    }
  }

  lemma {:induction false} UnusedEmpty(g: Setting, events: seq<Event>)
    ensures forall f :: !Uses(g.own, f) ==> SlotFold(g, f, events) == map[]
  {
  }

  lemma DeletedSynced(g: Setting, events: seq<Event>, st: State, gone: set<Slot>)
    requires StateSynced(g, events, st) && gone !! g.base.Keys
    ensures StateSynced(g, events, State(st.table - gone, st.routes, st.v6Routes))
  {
    hide SlotFold, ToMessage;
  }

  /** A check pass over a family adds missing routes and nothing else. */
  lemma {:induction false} PassSynced(base: Table, family: Family, m: Routes, t: Table, routes: seq<RouteSpec>)
    requires Synced(base, family, m, View(t, routes))
    ensures var u := RecoveredAll(t, family, t, routes);
      && Synced(base, family, m, View(u, routes)) && ValidTable(u)
      && forall q: Slot :: FamilyOf(q.dst) != family ==> (q in u <==> q in t) && (q in t ==> u[q] == t[q])
  {
    hide RecoveredAll;
    PassTracks(family, t, routes);
    CheckPassEffect(family, t, routes);
    var u := RecoveredAll(t, family, t, routes);
    PassFills(base, family, m, t, u, routes);
    hide Filled, ToMessage;
    PassSyncedAt(base, family, m, t, u, routes);
  }

  lemma PassFills(base: Table, family: Family, m: Routes, t: Table, u: Table, routes: seq<RouteSpec>)
    requires Synced(base, family, m, View(t, routes)) && Filled(t, routes, u)
    ensures forall q :: q in t ==> q in u && u[q] == t[q]
    ensures forall q :: q in u && q !in t ==> q in m && u[q] == ToMessage(m[q]) && FamilyOf(q.dst) == family
  {
    assert forall x :: x in routes ==> FamilyOf(SlotOf(x).dst) == family;
    hide ToMessage;
    forall q | q in u && q !in t
      ensures q in m && u[q] == ToMessage(m[q]) && FamilyOf(q.dst) == family
    {
      var x :| x in routes && SlotOf(x) == q;
    }
  }

  lemma PassSyncedAt(base: Table, family: Family, m: Routes, t: Table, u: Table, routes: seq<RouteSpec>)
    requires Synced(base, family, m, View(t, routes)) && ValidTable(u) && Tracked(family, u, routes)
    requires forall q :: q in t ==> q in u && u[q] == t[q]
    requires forall q :: q in u && q !in t ==> q in m && u[q] == ToMessage(m[q]) && FamilyOf(q.dst) == family
    ensures Synced(base, family, m, View(u, routes))
    ensures forall q: Slot :: FamilyOf(q.dst) != family ==> (q in u <==> q in t) && (q in t ==> u[q] == t[q])
  {
    assert Loose(family, u, routes);
    hide ToMessage, Loose, Tracked, ValidTable;
  }

  lemma CheckSynced(g: Setting, events: seq<Event>, st: State)
    requires StateSynced(g, events, st)
    ensures StateSynced(g, events, Checked(st))
  {
    hide RecoveredAll, SlotFold, Synced;
    var t := RecoveredAll(st.table, Inet, st.table, st.routes);
    PassSynced(g.base, Inet, SlotFold(g, Inet, events), st.table, st.routes);
    SyncedElsewhere(g.base, Inet6, SlotFold(g, Inet6, events), st.table, t, st.v6Routes);
    PassSynced(g.base, Inet6, SlotFold(g, Inet6, events), t, st.v6Routes);
    SyncedElsewhere(g.base, Inet, SlotFold(g, Inet, events), t, Checked(st).table, st.routes);
  }

  // ----- runs -----

  /** The events among the steps, in order. */
  function EventsOf(steps: seq<Step>): seq<Event> {
    if steps == [] then []
    else
      var before, last := EventsOf(steps[..|steps| - 1]), steps[|steps| - 1];
      if last.Handle? then before + [last.event] else before
  }

  /** Outsiders leave the initial routes alone. */
  ghost predicate SpareBase(base: Table, steps: seq<Step>) {
    forall s :: s in steps && s.Deleted? ==> s.gone !! base.Keys
  }

  /** Every event may come when it comes. */
  ghost predicate AllExpected(g: Setting, events: seq<Event>) {
    forall n :: 0 <= n < |events| ==> Expected(g, events[..n], events[n])
  }

  lemma {:induction false} StepsSynced(g: Setting, steps: seq<Step>)
    requires Admissible(g) && SpareBase(g.base, steps) && AllExpected(g, EventsOf(steps))
    requires AllSafe(HostGw(g.own, g.link), g.base, steps)
    ensures StateSynced(g, EventsOf(steps), AfterAll(HostGw(g.own, g.link), State(g.base, [], []), steps))
  {
    hide Admissible, Safe, StateSynced, Expected, HostGw, Handled, Checked;
    var b, st0 := HostGw(g.own, g.link), State(g.base, [], []);
    if steps == [] {
      InitiallySynced(g);
    } else {
      var n := |steps| - 1;
      var p := steps[..n];
      PrefixSafe(b, g.base, steps, n);
      assert steps[n] in steps && SpareBase(g.base, p);
      assert AllExpected(g, EventsOf(p)) by {
        ExpectedPrefix(g, steps);
      }
      StepsSynced(g, p);
      var st := AfterAll(b, st0, p);
      OneMore(b, st0, steps, n);
      assert steps[..n + 1] == steps;
      match steps[n] {
        case Handle(e) =>
          assert EventsOf(steps)[..|EventsOf(p)|] == EventsOf(p) && EventsOf(steps)[|EventsOf(p)|] == e;
          HandledSynced(g, EventsOf(p), e, st);
        case Deleted(gone) => DeletedSynced(g, EventsOf(p), st, gone);
        case Check => CheckSynced(g, EventsOf(p), st);
      }
    }
  }

  lemma {:induction false} InitiallySynced(g: Setting)
    requires Admissible(g)
    ensures StateSynced(g, [], State(g.base, [], []))
  {
  }

  lemma {:induction false} PrefixSafe(b: Backend, table: Table, steps: seq<Step>, n: nat)
    requires n <= |steps| && AllSafe(b, table, steps)
    ensures AllSafe(b, table, steps[..n])
    ensures forall i :: 0 <= i < |steps| ==> Safe(b, AfterAll(b, State(table, [], []), steps[..i]), steps[i])
  {
    hide Safe, AfterAll;
    forall i | 0 <= i < n
      ensures Safe(b, AfterAll(b, State(table, [], []), steps[..n][..i]), steps[..n][i])
    {
      assert steps[..n][..i] == steps[..i];
    }
  }

  lemma {:induction false} ExpectedPrefix(g: Setting, steps: seq<Step>)
    requires steps != [] && AllExpected(g, EventsOf(steps))
    ensures AllExpected(g, EventsOf(steps[..|steps| - 1]))
  {
    hide Expected;
    var p := EventsOf(steps[..|steps| - 1]);
    forall n | 0 <= n < |p|
      ensures Expected(g, p[..n], p[n])
    {
      assert EventsOf(steps)[..n] == p[..n] && EventsOf(steps)[n] == p[n];
    }
  }

  /** Events of known leases that are consistent in the sense of the watcher may come as they do. */
  lemma {:induction false} ConsistentIsExpected(g: Setting, events: seq<Event>)
    requires Admissible(g) && AllEvents(l => l in g.all, events) && Consistent(Images(g.own, g.link), map[], events)
    requires forall e :: e in events && e.kind == Added ==> KeyOf(e.lease) != KeyOf(g.own)
    ensures AllExpected(g, events)
  {
    hide Expected, Admissible, SlotFold, Images;
    if events == [] {
      assert AllExpected(g, events);
    } else {
      var n := |events| - 1;
      var p := events[..n];
      assert events[n] in events && forall e :: e in p ==> e in events;
      ConsistentIsExpected(g, p);
      LastExpected(g, p, events[n]);
      forall i | 0 <= i < |events|
        ensures Expected(g, events[..i], events[i])
      {
        if i < n {
          assert events[..i] == p[..i] && events[i] == p[i];
        }
      }
    }
  }

  lemma {:induction false} LastExpected(g: Setting, p: seq<Event>, e: Event)
    requires Admissible(g) && AllEvents(l => l in g.all, p) && e.lease in g.all
    requires e.kind == Added ==> KeyOf(e.lease) != KeyOf(g.own)
    requires var m := ApplyAll(Images(g.own, g.link), map[], p);
      e.kind == Removed && KeyOf(e.lease) in m ==> m[KeyOf(e.lease)] == Images(g.own, g.link)(e.lease)
    ensures Expected(g, p, e)
  {
    hide Admissible, SlotFold, ApplyAll, RouteFor;
    forall f | Uses(g.own, f) && SlotFor(g, f, e.lease) in SlotFold(g, f, p) && e.kind == Removed
      ensures SlotFold(g, f, p)[SlotFor(g, f, e.lease)] == RouteFor(g.link, f, e.lease)
    {
      FoldsAgree(g, f, p);
    }
  }

  // ----- agreement -----

  /**
    In one family: the tracked routes are the routes of the given leases of other
    nodes, one per destination, and all of them are in the kernel, which has
    nothing else in this family beyond the initial table.
   */
  ghost predicate AgreesOn(g: Setting, family: Family, leases: seq<Lease>, v: View) {
    && OnePerSlot(v.routes)
    && (forall l :: l in leases && KeyOf(l) != KeyOf(g.own) && Uses(g.own, family) ==>
          && RouteFor(g.link, family, l) in v.routes
          && SlotFor(g, family, l) in v.table
          && v.table[SlotFor(g, family, l)] == ToMessage(RouteFor(g.link, family, l)))
    && (!Uses(g.own, family) ==> v.routes == [])
    && (forall x :: x in v.routes ==>
          exists l :: l in leases && KeyOf(l) != KeyOf(g.own) && x == RouteFor(g.link, family, l))
    && (forall q :: q in v.table && FamilyOf(q.dst) == family && q !in g.base ==>
          Uses(g.own, family) && exists l :: l in leases && KeyOf(l) != KeyOf(g.own) && q == SlotFor(g, family, l))
  }

  /** Stored leases, tracked lists and kernel table agree, and the initial routes are as they were. */
  ghost predicate Agrees(g: Setting, leases: seq<Lease>, st: State) {
    && AgreesOn(g, Inet, leases, View(st.table, st.routes))
    && AgreesOn(g, Inet6, leases, View(st.table, st.v6Routes))
    && (forall q :: q in g.base ==> q in st.table && st.table[q] == g.base[q])
  }

  lemma {:induction false} SoundAgreesOn(g: Setting, family: Family, leases: seq<Lease>, events: seq<Event>, v: View)
    requires Admissible(g) && AllLeases(l => l in g.all, leases) && AllEvents(l => l in g.all, events)
    requires Mirrors(g.own, leases, Images(g.own, g.link), ApplyAll(Images(g.own, g.link), map[], events))
    requires Synced(g.base, family, SlotFold(g, family, events), v) && Tracked(family, v.table, v.routes)
    ensures AgreesOn(g, family, leases, v)
  {
    var m := SlotFold(g, family, events);
    if Uses(g.own, family) {
      FoldsAgree(g, family, events);
      hide SlotFold, ApplyAll;
      AgreesFromFold(g, family, leases, ApplyAll(Images(g.own, g.link), map[], events), m, v);
    } else {
      UnusedEmpty(g, events);
      NoneTracked(g.base, family, v);
    }
  }

  lemma NoneTracked(base: Table, family: Family, v: View)
    requires Synced(base, family, map[], v)
    ensures v.routes == []
  {
    if v.routes != [] {
      var x := SomeRoute(v.routes);
      assert false;
    }
  }

  lemma SomeRoute(routes: seq<RouteSpec>) returns (x: RouteSpec)
    requires routes != []
    ensures x in routes
  {
    x := routes[0];
  }

  lemma AgreesFromFold(
    g: Setting, family: Family, leases: seq<Lease>, m: map<Key, (Option<RouteSpec>, Option<RouteSpec>)>,
    slots: Routes, v: View)
    requires Admissible(g) && Uses(g.own, family) && AllLeases(l => l in g.all, leases)
    requires Mirrors(g.own, leases, Images(g.own, g.link), m) && SameRoutes(g, family, m, slots)
    requires Synced(g.base, family, slots, v) && Tracked(family, v.table, v.routes)
    ensures AgreesOn(g, family, leases, v)
  {
    hide Synced, Tracked, ToMessage, AgreesOn;
    forall l | l in leases && KeyOf(l) != KeyOf(g.own)
      ensures SlotFor(g, family, l) in slots && slots[SlotFor(g, family, l)] == RouteFor(g.link, family, l)
    {
      assert l in g.all && KeyOf(l) in m;
    }
    forall q | q in slots
      ensures exists l :: l in leases && KeyOf(l) != KeyOf(g.own) && q == SlotFor(g, family, l)
    {
      var a :| a in g.all && q == SlotFor(g, family, a);
      assert KeyOf(a) in PeerKeys(g.own, leases);
      var l :| l in leases && KeyOf(l) != KeyOf(g.own) && KeyOf(l) == KeyOf(a);
      KeyFixesSlot(g, family, a, l);
    }
    hide Mirrors, SameRoutes, Admissible, KeyOf, RouteFor;
    AgreesFromSlots(g, family, leases, slots, v);
  }

  lemma AgreesFromSlots(g: Setting, family: Family, leases: seq<Lease>, slots: Routes, v: View)
    requires Uses(g.own, family) && Synced(g.base, family, slots, v) && Tracked(family, v.table, v.routes)
    requires forall l :: l in leases && KeyOf(l) != KeyOf(g.own) ==>
               SlotFor(g, family, l) in slots && slots[SlotFor(g, family, l)] == RouteFor(g.link, family, l)
    requires forall q :: q in slots ==>
               exists l :: l in leases && KeyOf(l) != KeyOf(g.own) && q == SlotFor(g, family, l)
    ensures AgreesOn(g, family, leases, v)
  {
    assert forall l :: FamilyOf(SlotFor(g, family, l).dst) == family;
    assert forall x :: x in v.routes ==> SlotOf(x) in v.table;
    hide KeyOf, RouteFor, ToMessage, RouteMsgMatches;
    forall x | x in v.routes
      ensures exists l :: l in leases && KeyOf(l) != KeyOf(g.own) && x == RouteFor(g.link, family, l)
    {
      var l :| l in leases && KeyOf(l) != KeyOf(g.own) && SlotOf(x) == SlotFor(g, family, l);
      assert x == RouteFor(g.link, family, l);
    }
  }

  lemma {:induction false} SoundAgrees(g: Setting, leases: seq<Lease>, events: seq<Event>, st: State)
    requires Admissible(g) && AllLeases(l => l in g.all, leases) && AllEvents(l => l in g.all, events)
    requires Mirrors(g.own, leases, Images(g.own, g.link), ApplyAll(Images(g.own, g.link), map[], events))
    requires StateSynced(g, events, st) && Sound(st)
    ensures Agrees(g, leases, st)
  {
    BaseKept(g, events, st);
    hide Synced, Tracked, SlotFold, Mirrors, Admissible, AgreesOn;
    SoundAgreesOn(g, Inet, leases, events, View(st.table, st.routes));
    SoundAgreesOn(g, Inet6, leases, events, View(st.table, st.v6Routes));
  }

  lemma BaseKept(g: Setting, events: seq<Event>, st: State)
    requires StateSynced(g, events, st)
    ensures forall q :: q in g.base ==> q in st.table && st.table[q] == g.base[q]
  {
    hide SlotFold, ToMessage;
    assert forall q: Slot :: FamilyOf(q.dst) == Inet || FamilyOf(q.dst) == Inet6;
  }

  // ----- end to end -----

  /** The run shows the node only leases of the setting, with duplicate-free snapshots. */
  ghost predicate KnownRun(g: Setting, inputs: seq<Input>) {
    && Admissible(g) && ProperRun(g.own, inputs)
    && forall i :: 0 <= i < |inputs| ==> AllInput(l => l in g.all, inputs[i])
  }

  /** And no reset changes the routes of a stored lease. */
  ghost predicate GoodRun(g: Setting, inputs: seq<Input>) {
    KnownRun(g, inputs) && QuietRun(g.own, inputs, Images(g.own, g.link))
  }

  /** What a good run emits: events that may come as they do, and whose fold mirrors the stored leases. */
  lemma {:induction false} GoodRunEvents(g: Setting, inputs: seq<Input>)
    requires GoodRun(g, inputs)
    ensures var o := Run(g.own, inputs);
      && AllExpected(g, o.batch) && AllLeases(l => l in g.all, o.leases) && AllEvents(l => l in g.all, o.batch)
      && Mirrors(g.own, o.leases, Images(g.own, g.link), ApplyAll(Images(g.own, g.link), map[], o.batch))
  {
    hide Admissible, Run, Expected, Mirrors, ApplyAll, Images;
    RunMirrors(g.own, inputs, Images(g.own, g.link));
    RunInventsNothing(l => l in g.all, g.own, inputs);
    ConsistentIsExpected(g, Run(g.own, inputs).batch);
  }

  lemma SoundHostGw(own: Lease, link: nat)
    ensures SoundBackend(HostGw(own, link))
  {
  }

  /**
    A good run whose events are interleaved, in any way, with outsiders deleting
    routes of other nodes and with checks, all steps safe: after the next check
    stored leases, tracked lists and kernel table agree.
   */
  lemma {:induction false} EndToEndWithFaults(g: Setting, inputs: seq<Input>, steps: seq<Step>)
    requires GoodRun(g, inputs) && EventsOf(steps) == Run(g.own, inputs).batch
    requires SpareBase(g.base, steps) && AllSafe(HostGw(g.own, g.link), g.base, steps)
    ensures Agrees(g, Run(g.own, inputs).leases, Checked(AfterAll(HostGw(g.own, g.link), State(g.base, [], []), steps)))
  {
    var b, o := HostGw(g.own, g.link), Run(g.own, inputs);
    SoundHostGw(g.own, g.link);
    GoodRunEvents(g, inputs);
    TableValid(g);
    hide Admissible, Run, Expected, Mirrors, ApplyAll, Images, HostGw, StateSynced, Sound, Agrees, AllSafe,
         SpareBase, AfterAll,
         Checked, EventsOf;
    StepsSynced(g, steps);
    var st := AfterAll(b, State(g.base, [], []), steps);
    CheckSynced(g, o.batch, st);
    RunThenCheck(b, g.base, steps);
    SoundAgrees(g, o.leases, o.batch, Checked(st));
  }

  lemma TableValid(g: Setting)
    requires Admissible(g)
    ensures ValidTable(g.base)
  {
  }

  /** A batch as steps. */
  function Handles(batch: seq<Event>): seq<Step> {
    seq(|batch|, i requires 0 <= i < |batch| => Handle(batch[i]))
  }

  lemma {:induction false} HandlesAre(b: Backend, st: State, batch: seq<Event>)
    ensures EventsOf(Handles(batch)) == batch && AfterAll(b, st, Handles(batch)) == HandledAll(b, st, batch)
  {
    hide Handled;
    if batch == [] {
      assert Handles(batch) == [];
    } else {
      var n := |batch| - 1;
      HandlesAre(b, st, batch[..n]);
      assert Handles(batch)[..n] == Handles(batch[..n]) && Handles(batch)[n] == Handle(batch[n]);
    }
  }

  /** While nobody interferes every tracked route is in the kernel, so every step is safe. */
  lemma {:induction false} HandlesSafe(b: Backend, table: Table, batch: seq<Event>)
    requires SoundBackend(b) && ValidTable(table)
    ensures AllSafe(b, table, Handles(batch))
  {
    hide HandledAll, Sound, Safe;
    forall n | 0 <= n < |batch|
      ensures Safe(b, AfterAll(b, State(table, [], []), Handles(batch)[..n]), Handles(batch)[n])
    {
      HandlesAre(b, State(table, [], []), batch[..n]);
      assert Handles(batch)[..n] == Handles(batch[..n]);
      RunSound(b, table, batch[..n]);
      SoundIsSafe(b, HandledAll(b, State(table, [], []), batch[..n]), Handle(batch[n]));
    }
  }

  lemma SoundIsSafe(b: Backend, st: State, step: Step)
    requires Sound(st)
    ensures Safe(b, st, step)
  {
  }

  /** Without interference the tables and lists of any expected events are in step with their fold. */
  lemma {:induction false} BatchSynced(g: Setting, batch: seq<Event>)
    requires Admissible(g) && AllExpected(g, batch)
    ensures var st := HandledAll(HostGw(g.own, g.link), State(g.base, [], []), batch);
      StateSynced(g, batch, st) && Sound(st)
  {
    TableValid(g);
    SoundHostGw(g.own, g.link);
    hide Admissible, Expected, HostGw, StateSynced, Sound, AllSafe, AfterAll, EventsOf, HandledAll;
    var b := HostGw(g.own, g.link);
    HandlesAre(b, State(g.base, [], []), batch);
    HandlesSafe(b, g.base, batch);
    RunSound(b, g.base, batch);
    StepsSynced(g, Handles(batch));
  }

  /** The three views agree after every good run. */
  lemma {:induction false} EndToEnd(g: Setting, inputs: seq<Input>)
    requires GoodRun(g, inputs)
    ensures var o := Run(g.own, inputs);
      Agrees(g, o.leases, HandledAll(HostGw(g.own, g.link), State(g.base, [], []), o.batch))
  {
    hide Admissible, Run, Expected, Mirrors, ApplyAll, Images, HostGw, StateSynced, Sound, Agrees, HandledAll;
    GoodRunEvents(g, inputs);
    BatchSynced(g, Run(g.own, inputs).batch);
    var o := Run(g.own, inputs);
    SoundAgrees(g, o.leases, o.batch, HandledAll(HostGw(g.own, g.link), State(g.base, [], []), o.batch));
  }

  /** The three views agree after the first `n` inputs. */
  ghost predicate AgreesAfter(g: Setting, inputs: seq<Input>, n: nat)
    requires n <= |inputs|
  {
    var o := Run(g.own, inputs[..n]);
    Agrees(g, o.leases, HandledAll(HostGw(g.own, g.link), State(g.base, [], []), o.batch))
  }

  lemma {:induction false} PrefixKnown(g: Setting, inputs: seq<Input>, n: nat)
    requires n <= |inputs| && KnownRun(g, inputs)
    ensures KnownRun(g, inputs[..n])
    ensures QuietRun(g.own, inputs, Images(g.own, g.link)) ==> QuietRun(g.own, inputs[..n], Images(g.own, g.link))
  {
    hide Run, Quiet, Admissible, Images, Proper;
    if QuietRun(g.own, inputs, Images(g.own, g.link)) {
      forall i | 0 <= i < n && inputs[..n][i].Reset?
        ensures Quiet(g.own, Run(g.own, inputs[..n][..i]).leases, inputs[..n][i].snapshot, Images(g.own, g.link))
      {
        assert inputs[..n][..i] == inputs[..i] && inputs[..n][i] == inputs[i];
      }
    }
  }

  /**
    The exact condition: over a run of known leases the three views agree at every
    point if and only if no reset changes the routes of a lease that stays stored.
   */
  lemma {:induction false} EndToEndExactly(g: Setting, inputs: seq<Input>)
    requires KnownRun(g, inputs)
    ensures (forall n :: 0 <= n <= |inputs| ==> AgreesAfter(g, inputs, n))
       <==> QuietRun(g.own, inputs, Images(g.own, g.link))
  {
    hide KnownRun, Run, Agrees, HandledAll, HostGw, Images, QuietRun;
    if QuietRun(g.own, inputs, Images(g.own, g.link)) {
      forall n | 0 <= n <= |inputs|
        ensures AgreesAfter(g, inputs, n)
      {
        PrefixKnown(g, inputs, n);
        EndToEnd(g, inputs[..n]);
      }
    }
    if forall n :: 0 <= n <= |inputs| ==> AgreesAfter(g, inputs, n) {
      AgreesIsQuiet(g, inputs, |inputs|);
      assert inputs[..|inputs|] == inputs;
    }
  }

  lemma {:induction false} AgreesIsQuiet(g: Setting, inputs: seq<Input>, n: nat)
    requires n <= |inputs| && KnownRun(g, inputs)
    requires forall i :: 0 <= i <= |inputs| ==> AgreesAfter(g, inputs, i)
    ensures QuietRun(g.own, inputs[..n], Images(g.own, g.link))
    decreases n
  {
    hide KnownRun, Run, AgreesAfter, Images, Quiet;
    if n == 0 {
      assert QuietRun(g.own, inputs[..0], Images(g.own, g.link));
    } else {
      var p, img := inputs[..n - 1], Images(g.own, g.link);
      AgreesIsQuiet(g, inputs, n - 1);
      PrefixKnown(g, inputs, n - 1);
      PrefixKnown(g, inputs, n);
      if inputs[n - 1].Reset? {
        LastReset(g, inputs, n);
      }
      forall i | 0 <= i < n && inputs[..n][i].Reset?
        ensures Quiet(g.own, Run(g.own, inputs[..n][..i]).leases, inputs[..n][i].snapshot, img)
      {
        assert inputs[..n][..i] == inputs[..i] && inputs[..n][i] == inputs[i];
        if i < n - 1 {
          assert p[..i] == inputs[..i] && p[i] == inputs[i];
        }
      }
    }
  }

  /** After a quiet run, a reset that leaves the views in agreement was quiet. */
  lemma {:induction false} LastReset(g: Setting, inputs: seq<Input>, n: nat)
    requires 0 < n <= |inputs| && inputs[n - 1].Reset? && KnownRun(g, inputs[..n]) && GoodRun(g, inputs[..n - 1])
    requires AgreesAfter(g, inputs, n)
    ensures Quiet(g.own, Run(g.own, inputs[..n - 1]).leases, inputs[n - 1].snapshot, Images(g.own, g.link))
  {
    var img, p, q := Images(g.own, g.link), inputs[..n - 1], inputs[..n];
    var ls, snapshot := Run(g.own, p).leases, inputs[n - 1].snapshot;
    assert q[..n - 1] == p && q[n - 1] == inputs[n - 1];
    assert Proper(g.own, q[n - 1]);
    assert Run(g.own, q) == Outcome(snapshot, Run(g.own, p).batch + ResetAll(g.own, ls, snapshot).batch);
    RunMirrors(g.own, p, img);
    ResetMirrors(g.own, ls, snapshot, img, ApplyAll(img, map[], Run(g.own, p).batch));
    ApplyAllConcat(img, map[], Run(g.own, p).batch, ResetAll(g.own, ls, snapshot).batch);
    ConsistentConcat(img, map[], Run(g.own, p).batch, ResetAll(g.own, ls, snapshot).batch);
    RunInventsNothing(l => l in g.all, g.own, q);
    hide Admissible, Run, ResetAll, Quiet, Mirrors, ApplyAll, Consistent, Images, HostGw, HandledAll, Agrees,
         QuietRun, ProperRun;
    var batch := Run(g.own, q).batch;
    ConsistentIsExpected(g, batch);
    BatchSynced(g, batch);
    AgreesMirrors(g, snapshot, batch, HandledAll(HostGw(g.own, g.link), State(g.base, [], []), batch));
  }

  /** Conversely, if the views agree then the fold mirrors the leases, provided it has the right subnets. */
  lemma {:induction false} AgreesMirrors(g: Setting, leases: seq<Lease>, events: seq<Event>, st: State)
    requires Admissible(g) && AllLeases(l => l in g.all, leases) && AllEvents(l => l in g.all, events)
    requires ApplyAll(Images(g.own, g.link), map[], events).Keys == PeerKeys(g.own, leases)
    requires StateSynced(g, events, st) && Agrees(g, leases, st)
    ensures Mirrors(g.own, leases, Images(g.own, g.link), ApplyAll(Images(g.own, g.link), map[], events))
  {
    var img := Images(g.own, g.link);
    var m := ApplyAll(img, map[], events);
    ImagesHaveShape(g.own, g.link, events);
    forall l | l in leases && KeyOf(l) != KeyOf(g.own)
      ensures m[KeyOf(l)] == img(l)
    {
      ImageRight(g, Inet, leases, events, View(st.table, st.routes), l);
      ImageRight(g, Inet6, leases, events, View(st.table, st.v6Routes), l);
      hide ApplyAll, StateSynced, Agrees, RouteFor;
    }
  }

  lemma {:induction false} ImageRight(
    g: Setting, family: Family, leases: seq<Lease>, events: seq<Event>, v: View, l: Lease)
    requires Admissible(g) && AllLeases(x => x in g.all, leases) && AllEvents(x => x in g.all, events)
    requires ApplyAll(Images(g.own, g.link), map[], events).Keys == PeerKeys(g.own, leases)
    requires Synced(g.base, family, SlotFold(g, family, events), v) && AgreesOn(g, family, leases, v)
    requires l in leases && KeyOf(l) != KeyOf(g.own)
    ensures KeyOf(l) in ApplyAll(Images(g.own, g.link), map[], events)
    ensures Uses(g.own, family) ==>
      ImageOf(family, ApplyAll(Images(g.own, g.link), map[], events)[KeyOf(l)]) == Some(RouteFor(g.link, family, l))
  {
    assert KeyOf(l) in PeerKeys(g.own, leases) && l in g.all;
    if Uses(g.own, family) {
      FoldsAgree(g, family, events);
      hide SlotFold, ApplyAll, Images;
      assert RouteFor(g.link, family, l) in v.routes;
    }
  }

  // ----- inputs that break the agreement -----

  /**
    A reset that changes a stored lease: two snapshots of the same subnet with
    different public addresses leave the watcher with the new address and the
    kernel with a route to the old one.
   */
  lemma {:induction false} SilentReplacement(own: Lease, link: nat, l: Lease, ip: nat)
    requires own.enableIpv4 && !own.enableIpv6 && SameFlags(own, l) && l.attrs.backendType == HOST_GW
    requires KeyOf(l) != KeyOf(own) && ip != l.attrs.publicIp
    ensures var l' := l.(attrs := l.attrs.(publicIp := ip));
      var o := Run(own, [Reset([l]), Reset([l'])]);
      var st := HandledAll(HostGw(own, link), State(map[], [], []), o.batch);
      var s := RouteFor(link, Inet, l);
      && o == Outcome([l'], [Event(Added, l)])
      && st == State(map[SlotOf(s) := ToMessage(s)], [s], [])
      && !Agrees(Setting(map[], own, link, [l, l']), o.leases, st)
  {
    var l' := l.(attrs := l.attrs.(publicIp := ip));
    ChangedBySnapshot(own, l, l');
    FirstEvent(own, link, l);
    hide HandledAll, ToMessage, Run, HostGw;
    var s := RouteFor(link, Inet, l);
    NewerMissing(Setting(map[], own, link, [l, l']), l', State(map[SlotOf(s) := ToMessage(s)], [s], []));
  }

  lemma {:induction false} FirstEvent(own: Lease, link: nat, l: Lease)
    requires own.enableIpv4 && !own.enableIpv6 && SameFlags(own, l) && l.attrs.backendType == HOST_GW
    ensures var s := RouteFor(link, Inet, l);
      HandledAll(HostGw(own, link), State(map[], [], []), [Event(Added, l)])
      == State(map[SlotOf(s) := ToMessage(s)], [s], [])
  {
    V4EventHandled(own, link, State(map[], [], []), Event(Added, l));
    FirstAdd(RouteFor(link, Inet, l));
    hide Handled, RouteAdded, ToMessage;
    assert [Event(Added, l)][..0] == [];
  }

  lemma NewerMissing(g: Setting, l: Lease, st: State)
    requires KeyOf(l) != KeyOf(g.own) && g.own.enableIpv4 && RouteFor(g.link, Inet, l) !in st.routes
    ensures !Agrees(g, [l], st)
  {
    assert l in [l];
  }

  /** What an IPv4 host-gw network does on an event of a lease of its kind. */
  lemma V4EventHandled(own: Lease, link: nat, st: State, e: Event)
    requires own.enableIpv4 && !own.enableIpv6 && SameFlags(own, e.lease) && e.lease.attrs.backendType == HOST_GW
    ensures var v := OnFamily(Inet, e.kind, View(st.table, st.routes), RouteFor(link, Inet, e.lease));
      Handled(HostGw(own, link), st, e) == State(v.table, v.routes, st.v6Routes)
  {
    hide OnFamily;
  }

  lemma FirstAdd(s: RouteSpec)
    requires WellFormed(Inet, s)
    ensures RouteAdded(View(map[], []), Inet, s) == View(map[SlotOf(s) := ToMessage(s)], [s])
  {
  }

  lemma {:induction false} ChangedBySnapshot(own: Lease, l: Lease, l': Lease)
    requires KeyOf(l) == KeyOf(l') != KeyOf(own) && SameFlags(own, l) && SameFlags(own, l')
    ensures Run(own, [Reset([l]), Reset([l'])]) == Outcome([l'], [Event(Added, l)])
  {
    MatchIsKeyEquality(own, own, l);
    MatchIsKeyEquality(own, own, l');
    MatchIsKeyEquality(own, l, l');
    hide IsOwn, Matches, SameFlags, KeyOf;
    assert [l][..0] == [] && [l'][..0] == [] && [Reset([l])][..0] == [];
    assert [Reset([l]), Reset([l'])][..1] == [Reset([l])];
    assert ScanSnapshot(own, [], [l]) == Outcome([], [Event(Added, l)]);
    assert ScanSnapshot(own, [l], [l']) == Outcome([], []);
    assert Run(own, []) == Outcome([], []);
    assert Run(own, [Reset([l])]) == Outcome([l], [Event(Added, l)]);
  }

  /**
    An unsafe run: a lease is added, somebody deletes its route, the lease
    changes its public address and is removed.  The next check installs the route
    to the old address again, for a subnet that no node has.
   */
  lemma StaleComesBack(own: Lease, link: nat, l: Lease, ip: nat)
    requires own.enableIpv4 && !own.enableIpv6 && SameFlags(own, l) && l.attrs.backendType == HOST_GW
    requires ip != l.attrs.publicIp
    ensures var l' := l.(attrs := l.attrs.(publicIp := ip));
      var b, stale := HostGw(own, link), RouteFor(link, Inet, l);
      var st1 := After(b, State(map[], [], []), Handle(Event(Added, l)));
      var st2 := After(b, st1, Deleted({SlotOf(stale)}));
      var st3 := After(b, st2, Handle(Event(Added, l')));
      var st4 := After(b, st3, Handle(Event(Removed, l')));
      && st4 == State(map[], [stale], []) && !Safe(b, st2, Handle(Event(Added, l')))
      && After(b, st4, Check) == State(map[SlotOf(stale) := ToMessage(stale)], [stale], [])
  {
    var l' := l.(attrs := l.attrs.(publicIp := ip));
    var stale, changed := RouteFor(link, Inet, l), RouteFor(link, Inet, l');
    var slot := SlotOf(stale);
    StaleViews(slot, stale, changed);
    hide Checked, RouteAdded, RouteRemoved, ToMessage, Handled;
    var st1, st2 := State(map[slot := ToMessage(stale)], [stale], []), State(map[], [stale], []);
    assert st1.table - {slot} == map[];
    V4EventHandled(own, link, State(map[], [], []), Event(Added, l));
    V4EventHandled(own, link, st2, Event(Added, l'));
    V4EventHandled(own, link, State(map[slot := ToMessage(changed)], [stale, changed], []), Event(Removed, l'));
    ChangeIsUnsafe(own, link, l, l', st2);
    hide Safe, HostGw;
  }

  lemma ChangeIsUnsafe(own: Lease, link: nat, l: Lease, l': Lease, st: State)
    requires own.enableIpv4 && SameFlags(own, l') && l'.attrs.backendType == HOST_GW
    requires RouteFor(link, Inet, l) in st.routes && SlotOf(RouteFor(link, Inet, l)) !in st.table
    requires l'.subnet == l.subnet && l'.attrs.publicIp != l.attrs.publicIp
    ensures !Safe(HostGw(own, link), st, Handle(Event(Added, l')))
  {
    assert Blind(View(st.table, st.routes), RouteFor(link, Inet, l'));
  }

  lemma StaleViews(slot: Slot, stale: RouteSpec, changed: RouteSpec)
    requires WellFormed(Inet, stale) && WellFormed(Inet, changed) && !RouteSpecEqual(stale, changed)
    requires SlotOf(stale) == SlotOf(changed) == slot
    ensures RouteAdded(View(map[], []), Inet, stale) == View(map[slot := ToMessage(stale)], [stale])
    ensures RouteAdded(View(map[], [stale]), Inet, changed) == View(map[slot := ToMessage(changed)], [stale, changed])
    ensures RouteRemoved(View(map[slot := ToMessage(changed)], [stale, changed]), changed) == View(map[], [stale])
    ensures Checked(State(map[], [stale], [])) == State(map[slot := ToMessage(stale)], [stale], [])
  {
    FirstAdd(stale);
    ListsOfTwo(stale, changed);
    hide AddToRouteList, RemoveFromRouteList;
    assert map[slot := ToMessage(changed)] - {slot} == map[];
    assert [stale][..0] == [] && RecoveredAll(map[], Inet, map[], []) == map[];
    assert RecoveredAll(map[], Inet, map[], [stale]) == map[slot := ToMessage(stale)];
  }

  lemma ListsOfTwo(a: RouteSpec, b: RouteSpec)
    requires !RouteSpecEqual(a, b)
    ensures AddToRouteList([a], b) == [a, b] && RemoveFromRouteList([a, b], b) == [a]
  {
    assert [a][1..] == [] && [a, b][1..] == [b] && [a, b][..1] + [a, b][2..] == [a];
    assert PositionOf([], b) == 0 && PositionOf([b], b) == 0;
  }
}
