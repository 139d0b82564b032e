/**
  Whole runs of the route network: what holds after every batch, and what one
  check pass restores.
 */
module RouteRuns {
  import opened Base
  import opened IpNet
  import opened Lease
  import opened RouteNetwork

  // ----- every run, any leases -----

  /** Route functions produce routes of their own family. */
  ghost predicate SoundBackend(b: Backend) {
    && (b.getRoute.Some? ==> forall l :: WellFormed(Inet, b.getRoute.value(l)))
    && (b.getV6Route.Some? ==> forall l :: WellFormed(Inet6, b.getV6Route.value(l)))
  }

  ghost predicate Sound(st: State) {
    ValidTable(st.table) && Tracked(Inet, st.table, st.routes) && Tracked(Inet6, st.table, st.v6Routes)
  }

  lemma OnFamilySound(family: Family, kind: EventType, v: View, s: RouteSpec, other: Family, others: seq<RouteSpec>)
    requires ValidTable(v.table) && Tracked(family, v.table, v.routes) && WellFormed(family, s)
    requires other != family && Tracked(other, v.table, others)
    ensures var v' := OnFamily(family, kind, v, s);
      && ValidTable(v'.table) && Tracked(family, v'.table, v'.routes) && Tracked(other, v'.table, others)
  {
    if kind == Added {
      RouteAddedTracked(family, v, s);
    } else {
      RouteRemovedEffect(family, v, s);
      RouteRemovedTracked(family, v, s);
    }
    assert forall x :: x in others ==> SlotOf(x) != SlotOf(s);
  }

  lemma HandledSound(b: Backend, st: State, e: Event)
    requires SoundBackend(b) && Sound(st)
    ensures Sound(Handled(b, st, e))
  {
    var st1 := st;
    if e.lease.attrs.backendType == b.backendType && (e.lease.enableIpv4 ==> b.getRoute.Some?) {
      if e.lease.enableIpv4 {
        OnFamilySound(Inet, e.kind, View(st.table, st.routes), b.getRoute.value(e.lease), Inet6, st.v6Routes);
        st1 := V4Handled(b, st, e);
      }
      if e.lease.enableIpv6 && b.getV6Route.Some? {
        OnFamilySound(Inet6, e.kind, View(st1.table, st1.v6Routes), b.getV6Route.value(e.lease), Inet, st1.routes);
      }
    }
  }

  /**
    Whatever leases the batches carry and whatever the kernel held at the start:
    each list has at most one route per destination, and each is in the kernel.
   */
  lemma {:induction false} RunSound(b: Backend, table: Table, batch: seq<Event>)
    requires SoundBackend(b) && ValidTable(table)
    ensures Sound(HandledAll(b, State(table, [], []), batch))
  {
    if batch == [] {
    } else {
      var n := |batch| - 1;
      RunSound(b, table, batch[..n]);
      HandledSound(b, HandledAll(b, State(table, [], []), batch[..n]), batch[n]);
    }
  }

  // ----- the check pass -----

  ghost function Slots(routes: seq<RouteSpec>): set<Slot> {
    set s | s in routes :: SlotOf(s)
  }

  /** `t'` is `t` with the free destinations of `routes` filled. */
  ghost predicate Filled(t: Table, routes: seq<RouteSpec>, t': Table) {
    && t'.Keys == t.Keys + Slots(routes)
    && (forall q :: q in t ==> t'[q] == t[q])
    && (forall s :: s in routes && SlotOf(s) !in t ==> t'[SlotOf(s)] == ToMessage(s))
  }

  lemma RecoveredFills(family: Family, t: Table, p: seq<RouteSpec>, t': Table, s: RouteSpec)
    requires ValidTable(t) && WellFormed(family, s) && SlotOf(s) !in Slots(p) && Filled(t, p, t')
    ensures Filled(t, p + [s], Recovered(t, family, t', s))
  {
    assert ToMessage(s).slot == SlotOf(s);
    assert forall x :: x in p + [s] <==> x in p || x == s;
    assert Slots(p + [s]) == Slots(p) + {SlotOf(s)};
    assert forall x :: x in p ==> SlotOf(x) in Slots(p);
  }

  /** One pass from any table: free destinations of tracked routes are filled, nothing else changes. */
  lemma {:induction false} CheckPassEffect(family: Family, t: Table, routes: seq<RouteSpec>)
    requires ValidTable(t) && OnePerSlot(routes) && forall s :: s in routes ==> WellFormed(family, s)
    ensures Filled(t, routes, RecoveredAll(t, family, t, routes))
  {
    if routes == [] {
    } else {
      var n := |routes| - 1;
      var p, s := routes[..n], routes[n];
      CheckPassEffect(family, t, p);
      assert routes == p + [s] && s in routes;
      hide Recovered;
      RecoveredFills(family, t, p, RecoveredAll(t, family, t, p), s);
    }
  }

  /** After one pass a tracked route is in the kernel, unless a different route holds its destination. */
  lemma {:induction false} CheckPassRestores(family: Family, t: Table, routes: seq<RouteSpec>, s: RouteSpec)
    requires ValidTable(t) && OnePerSlot(routes) && s in routes
    requires forall x :: x in routes ==> WellFormed(family, x)
    ensures InKernel(RecoveredAll(t, family, t, routes), s)
       <==> !(SlotOf(s) in t && !RouteMsgMatches(t[SlotOf(s)], s))
  {
    CheckPassEffect(family, t, routes);
    assert RouteMsgMatches(ToMessage(s), s);
  }

  /**
    From any state where every tracked route is in the kernel, an outsider deletes
    any set of tracked destinations: one pass fills exactly those again, with the
    tracked routes.  It gives back the very same table if and only if the deleted
    routes were as the network writes them, flags included.
   */
  lemma {:induction false} CheckPassUndoesDeletion(family: Family, t: Table, routes: seq<RouteSpec>, gone: set<Slot>)
    requires ValidTable(t) && Tracked(family, t, routes) && gone <= Slots(routes)
    ensures var t' := RecoveredAll(t - gone, family, t - gone, routes);
      && ValidTable(t') && t'.Keys == t.Keys && (forall q :: q in t && q !in gone ==> t'[q] == t[q])
      && Tracked(family, t', routes)
      && (t' == t <==> forall s :: s in routes && SlotOf(s) in gone ==> t[SlotOf(s)] == ToMessage(s))
  {
    var t' := RecoveredAll(t - gone, family, t - gone, routes);
    CheckPassEffect(family, t - gone, routes);
    hide RecoveredAll;
    FilledAgain(family, t, routes, gone, t');
  }

  lemma FilledAgain(family: Family, t: Table, routes: seq<RouteSpec>, gone: set<Slot>, t': Table)
    requires ValidTable(t) && Tracked(family, t, routes) && gone <= Slots(routes) && Filled(t - gone, routes, t')
    ensures ValidTable(t') && t'.Keys == t.Keys && (forall q :: q in t && q !in gone ==> t'[q] == t[q])
    ensures Tracked(family, t', routes)
    ensures t' == t <==> forall s :: s in routes && SlotOf(s) in gone ==> t[SlotOf(s)] == ToMessage(s)
  {
    assert forall s :: s in routes ==> SlotOf(s) in t && ToMessage(s).slot == SlotOf(s);
    assert forall s :: s in routes ==> RouteMsgMatches(ToMessage(s), s);
    assert forall q :: q in Slots(routes) ==> q in t;
    hide ToMessage, RouteMsgMatches;
    SameTable(t, routes, gone, t');
  }

  lemma SameTable(t: Table, routes: seq<RouteSpec>, gone: set<Slot>, t': Table)
    requires gone <= Slots(routes) && Filled(t - gone, routes, t') && forall s :: s in routes ==> SlotOf(s) in t
    ensures t' == t <==> forall s :: s in routes && SlotOf(s) in gone ==> t[SlotOf(s)] == ToMessage(s)
  {
    hide ToMessage;
    assert t'.Keys == t.Keys;
    if forall s :: s in routes && SlotOf(s) in gone ==> t[SlotOf(s)] == ToMessage(s) {
      forall q | q in t
        ensures t'[q] == t[q]
      {
        if q in gone {
          var s :| s in routes && SlotOf(s) == q;
        }
      }
    }
  }

  /** The periodic check: a pass over each family. */
  function Checked(st: State): State {
    var t := RecoveredAll(st.table, Inet, st.table, st.routes);
    State(RecoveredAll(t, Inet6, t, st.v6Routes), st.routes, st.v6Routes)
  }

  /** After every run, whatever tracked routes an outsider deletes, the next check restores them and nothing else. */
  lemma {:induction false} RunRecovers(b: Backend, table: Table, batch: seq<Event>, gone: set<Slot>)
    requires SoundBackend(b) && ValidTable(table)
    requires var st := HandledAll(b, State(table, [], []), batch); gone <= Slots(st.routes) + Slots(st.v6Routes)
    ensures var st := HandledAll(b, State(table, [], []), batch);
      var st' := Checked(State(st.table - gone, st.routes, st.v6Routes));
      && Sound(st') && st'.table.Keys == st.table.Keys
      && (forall q :: q in st.table && q !in gone ==> st'.table[q] == st.table[q])
  {
    var st := HandledAll(b, State(table, [], []), batch);
    RunSound(b, table, batch);
    hide HandledAll;
    CheckRecovers(st, gone);
  }

  lemma CheckRecovers(st: State, gone: set<Slot>)
    requires Sound(st) && gone <= Slots(st.routes) + Slots(st.v6Routes)
    ensures var st' := Checked(State(st.table - gone, st.routes, st.v6Routes));
      && Sound(st') && st'.table.Keys == st.table.Keys
      && (forall q :: q in st.table && q !in gone ==> st'.table[q] == st.table[q])
  {
    FamiliesApart(st);
    hide Tracked, ValidTable, Slots;
    var left, v4, v6 := st.table - gone, gone * Slots(st.routes), gone * Slots(st.v6Routes);
    var t := RecoveredAll(left, Inet, left, st.routes);
    SoundFilters(st, v6);
    assert left == (st.table - v6) - v4;
    TrackedElsewhere(Inet, st.table, st.table - v6, st.routes);
    CheckPassUndoesDeletion(Inet, st.table - v6, st.routes, v4);
    var whole := map q | q in st.table :: if q in v6 then st.table[q] else t[q];
    WholeIsSound(st, v4, v6, t, whole);
    assert t == whole - v6;
    CheckPassUndoesDeletion(Inet6, whole, st.v6Routes, v6);
    TrackedElsewhere(Inet, t, RecoveredAll(t, Inet6, t, st.v6Routes), st.routes);
  }

  lemma SoundFilters(st: State, v6: set<Slot>)
    requires Sound(st)
    ensures ValidTable(st.table - v6)
  {
  }

  lemma TrackedElsewhere(family: Family, t: Table, u: Table, routes: seq<RouteSpec>)
    requires Tracked(family, t, routes)
    requires forall q :: q in t && q in Slots(routes) ==> q in u && u[q] == t[q]
    ensures Tracked(family, u, routes)
  {
    assert forall s :: s in routes ==> SlotOf(s) in Slots(routes);
  }

  lemma WholeIsSound(st: State, v4: set<Slot>, v6: set<Slot>, t: Table, whole: Table)
    requires Sound(st) && v4 <= Slots(st.routes) && v6 <= Slots(st.v6Routes) && Slots(st.routes) !! Slots(st.v6Routes)
    requires ValidTable(t) && t.Keys == st.table.Keys - v6 && whole.Keys == st.table.Keys
    requires forall q :: q in st.table && q !in v6 && q !in v4 ==> t[q] == st.table[q]
    requires forall q :: q in whole ==> whole[q] == if q in v6 then st.table[q] else t[q]
    ensures ValidTable(whole) && Tracked(Inet6, whole, st.v6Routes)
  {
    assert forall q :: q in Slots(st.v6Routes) && q in st.table ==> whole[q] == st.table[q];
    hide Slots;
    TrackedElsewhere(Inet6, st.table, whole, st.v6Routes);
  }

  lemma FamiliesApart(st: State)
    requires Sound(st)
    ensures Slots(st.routes) !! Slots(st.v6Routes)
  {
    assert forall s :: s in st.routes ==> SlotOf(s).dst.V4?;
    assert forall s :: s in st.v6Routes ==> SlotOf(s).dst.V6?;
  }
}
