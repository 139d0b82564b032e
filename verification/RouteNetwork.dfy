/**
  The route-based backends: one static route per peer subnet, kept in a tracked
  list and in the kernel table.  The kernel table holds at most one route per
  destination; adding fails when the destination is taken, deleting needs the
  same gateway and interface.
 */
module RouteNetwork {
  import opened Base
  import opened IpNet
  import opened Lease

  datatype IpAddr = V4(addr: nat) | V6(addr: nat)

  datatype Family = Inet | Inet6

  datatype RouteSpec = RouteSpec(
    dst: IpAddr,
    prefixLen: nat,
    gateway: IpAddr,
    linkIndex: nat,
    family: Family,
    onlink: bool)

  /** A destination of the kernel table. */
  datatype Slot = Slot(dst: IpAddr, prefixLen: nat)

  /** A kernel route. */
  datatype RouteMessage = RouteMessage(slot: Slot, gateway: Option<IpAddr>, oif: Option<nat>, onlink: bool)

  type Table = map<Slot, RouteMessage>

  function FamilyOf(ip: IpAddr): Family {
    if ip.V4? then Inet else Inet6
  }

  function ToMessage(s: RouteSpec): RouteMessage {
    match s.family
    case Inet =>
      var dst := if s.dst.V4? then s.dst else V4(0);
      RouteMessage(Slot(dst, s.prefixLen), if s.gateway.V4? then Some(s.gateway) else None, Some(s.linkIndex), s.onlink)
    case Inet6 =>
      var dst := if s.dst.V6? then s.dst else V6(0);
      RouteMessage(Slot(dst, s.prefixLen), if s.gateway.V6? then Some(s.gateway) else None, Some(s.linkIndex), s.onlink)
  }

  function SlotOf(s: RouteSpec): Slot {
    Slot(s.dst, s.prefixLen)
  }

  predicate RouteSpecEqual(x: RouteSpec, y: RouteSpec) {
    x.dst == y.dst && x.prefixLen == y.prefixLen && x.gateway == y.gateway && x.linkIndex == y.linkIndex
  }

  predicate RouteMsgMatches(msg: RouteMessage, s: RouteSpec) {
    msg.slot == SlotOf(s) && msg.gateway == Some(s.gateway) && msg.oif == Some(s.linkIndex)
  }

  // ----- tracked list -----

  /** Index of the first tracked route equal to `s`, or the length of the list. */
  function PositionOf(routes: seq<RouteSpec>, s: RouteSpec): (i: nat)
    ensures i <= |routes|
    ensures i < |routes| ==> RouteSpecEqual(routes[i], s)
    ensures forall j :: 0 <= j < i ==> !RouteSpecEqual(routes[j], s)
  {
    FirstIndex(routes, x => RouteSpecEqual(x, s))
  }

  /** Index of the first tracked route that a kernel route matches, or the length of the list. */
  function PositionOfMsg(routes: seq<RouteSpec>, msg: RouteMessage): (i: nat)
    ensures i <= |routes|
    ensures i < |routes| ==> RouteMsgMatches(msg, routes[i])
    ensures forall j :: 0 <= j < i ==> !RouteMsgMatches(msg, routes[j])
  {
    FirstIndex(routes, x => RouteMsgMatches(msg, x))
  }

  function RemoveAt(routes: seq<RouteSpec>, i: nat): seq<RouteSpec> {
    if i < |routes| then routes[..i] + routes[i + 1..] else routes
  }

  function AddToRouteList(routes: seq<RouteSpec>, s: RouteSpec): seq<RouteSpec> {
    if PositionOf(routes, s) < |routes| then routes else routes + [s]
  }

  function RemoveFromRouteList(routes: seq<RouteSpec>, s: RouteSpec): seq<RouteSpec> {
    RemoveAt(routes, PositionOf(routes, s))
  }

  function RemoveMsgFromRouteList(routes: seq<RouteSpec>, msg: RouteMessage): seq<RouteSpec> {
    RemoveAt(routes, PositionOfMsg(routes, msg))
  }

  // ----- kernel -----

  function KernelAdd(t: Table, msg: RouteMessage): Result<Table, ()> {
    if msg.slot in t then Err(()) else Ok(t[msg.slot := msg])
  }

  function KernelDel(t: Table, msg: RouteMessage): Result<Table, ()> {
    if msg.slot in t && t[msg.slot].gateway == msg.gateway && t[msg.slot].oif == msg.oif
    then Ok(t - {msg.slot}) else Err(())
  }

  /** The route of the family with the destination of `s`, if there is one. */
  function ListByDst(t: Table, family: Family, s: RouteSpec): Option<RouteMessage> {
    if SlotOf(s) in t && FamilyOf(s.dst) == family then Some(t[SlotOf(s)]) else None
  }

  // ----- what the handlers compute -----

  /** Kernel table and the tracked list of one family. */
  datatype View = View(table: Table, routes: seq<RouteSpec>)

  function ReplaceStale(v: View, family: Family, s: RouteSpec): Result<View, ()> {
    match ListByDst(v.table, family, s)
    case None => Ok(v)
    case Some(first) =>
      if RouteMsgMatches(first, s) then Ok(v)
      else match KernelDel(v.table, first)
        case Err(_) => Err(())
        case Ok(t) => Ok(View(t, RemoveMsgFromRouteList(v.routes, first)))
  }

  function RouteAdded(v: View, family: Family, s: RouteSpec): View {
    var v1 := View(v.table, AddToRouteList(v.routes, s));
    match ReplaceStale(v1, family, s)
    case Err(_) => v1
    case Ok(v2) =>
      var found := ListByDst(v2.table, family, s);
      if found.Some? && RouteMsgMatches(found.value, s) then v2
      else match KernelAdd(v2.table, ToMessage(s))
        case Ok(t) => View(t, v2.routes)
        case Err(_) => v2
  }

  function RouteRemoved(v: View, s: RouteSpec): View {
    var routes := RemoveFromRouteList(v.routes, s);
    match KernelDel(v.table, ToMessage(s))
    case Ok(t) => View(t, routes)
    case Err(_) => View(v.table, routes)
  }

  /** Routes of the two families; a family without a route function is disabled. */
  datatype Backend = Backend(
    backendType: string,
    getRoute: Option<Lease -> RouteSpec>,
    getV6Route: Option<Lease -> RouteSpec>)

  /** Kernel table and both tracked lists. */
  datatype State = State(table: Table, routes: seq<RouteSpec>, v6Routes: seq<RouteSpec>)

  function OnFamily(family: Family, kind: EventType, v: View, s: RouteSpec): View {
    match kind
    case Added => RouteAdded(v, family, s)
    case Removed => RouteRemoved(v, s)
  }

  function V4Handled(b: Backend, st: State, e: Event): State
    requires b.getRoute.Some?
  {
    var v := OnFamily(Inet, e.kind, View(st.table, st.routes), b.getRoute.value(e.lease));
    State(v.table, v.routes, st.v6Routes)
  }

  function V6Handled(b: Backend, st: State, e: Event): State
    requires b.getV6Route.Some?
  {
    var v := OnFamily(Inet6, e.kind, View(st.table, st.v6Routes), b.getV6Route.value(e.lease));
    State(v.table, st.routes, v.routes)
  }

  function Handled(b: Backend, st: State, e: Event): State {
    if e.lease.attrs.backendType != b.backendType then st
    else if e.lease.enableIpv4 && b.getRoute.None? then st
    else
      var st1 := if e.lease.enableIpv4 then V4Handled(b, st, e) else st;
      if e.lease.enableIpv6 && b.getV6Route.Some? then V6Handled(b, st1, e) else st1
  }

  function HandledAll(b: Backend, st: State, batch: seq<Event>): State {
    if batch == [] then st
    else Handled(b, HandledAll(b, st, batch[..|batch| - 1]), batch[|batch| - 1])
  }

  /** One tracked route of a check pass: re-added unless the dump taken at the start has it. */
  function Recovered(dump: Table, family: Family, t: Table, s: RouteSpec): Table {
    if SlotOf(s) in dump && FamilyOf(s.dst) == family && RouteMsgMatches(dump[SlotOf(s)], s) then t
    else match KernelAdd(t, ToMessage(s))
      case Ok(t') => t'
      case Err(_) => t
  }

  function RecoveredAll(dump: Table, family: Family, t: Table, routes: seq<RouteSpec>): Table {
    if routes == [] then t
    else Recovered(dump, family, RecoveredAll(dump, family, t, routes[..|routes| - 1]), routes[|routes| - 1])
  }

  /** The network object; the kernel table stands for the netlink handle. */
  class RouteNetwork {
    const backend: Backend
    var table: Table
    var routes: seq<RouteSpec>
    var v6Routes: seq<RouteSpec>

    constructor (backend: Backend, table: Table)
      ensures this.backend == backend
      ensures Contents() == State(table, [], [])
    {
      this.backend, this.table, routes, v6Routes := backend, table, [], [];
    }

    ghost function Contents(): State
      reads this
    {
      State(table, routes, v6Routes)
    }

    method RouteAdd(list: seq<RouteSpec>, family: Family, route: RouteSpec) returns (list': seq<RouteSpec>)
      modifies this`table
      ensures View(table, list') == RouteAdded(View(old(table), list), family, route)
    {
      list' := AddToRouteList(list, route);
      var first := ListByDst(table, family, route);
      if first.Some? && !RouteMsgMatches(first.value, route) {
        var r := KernelDel(table, first.value);
        if r.Err? {
          return;
        }
        table := r.value;
        list' := RemoveMsgFromRouteList(list', first.value);
      }
      first := ListByDst(table, family, route);
      if first.None? || !RouteMsgMatches(first.value, route) {
        var r := KernelAdd(table, ToMessage(route));
        if r.Ok? {
          table := r.value;
        }
      }
    }

    method RouteDel(list: seq<RouteSpec>, route: RouteSpec) returns (list': seq<RouteSpec>)
      modifies this`table
      ensures View(table, list') == RouteRemoved(View(old(table), list), route)
    {
      list' := RemoveFromRouteList(list, route);
      var r := KernelDel(table, ToMessage(route));
      if r.Ok? {
        table := r.value;
      }
    }

    method HandleSubnetEvents(batch: seq<Event>)
      modifies this
      ensures Contents() == HandledAll(backend, old(Contents()), batch)
    {
      for n := 0 to |batch|
        invariant Contents() == HandledAll(backend, old(Contents()), batch[..n])
      {
        assert batch[..n + 1][..n] == batch[..n];
        var evt := batch[n];
        if evt.lease.attrs.backendType != backend.backendType {
          continue;
        }
        if evt.lease.enableIpv4 {
          if backend.getRoute.None? {
            continue;
          }
          var route := backend.getRoute.value(evt.lease);
          match evt.kind {
            case Added => routes := RouteAdd(routes, Inet, route);
            case Removed => routes := RouteDel(routes, route);
          }
        }
        if evt.lease.enableIpv6 {
          if backend.getV6Route.None? {
            continue;
          }
          var route := backend.getV6Route.value(evt.lease);
          match evt.kind {
            case Added => v6Routes := RouteAdd(v6Routes, Inet6, route);
            case Removed => v6Routes := RouteDel(v6Routes, route);
          }
        }
      }
      assert batch[..|batch|] == batch;
    }

    method CheckSubnetExistInRoutes(family: Family)
      modifies this`table
      ensures table == RecoveredAll(old(table), family, old(table), if family == Inet then routes else v6Routes)
    {
      var list := if family == Inet then routes else v6Routes;
      var dump := table;
      for i := 0 to |list|
        invariant table == RecoveredAll(dump, family, dump, list[..i])
      {
        assert list[..i + 1][..i] == list[..i];
        var route := list[i];
        if SlotOf(route) in dump && FamilyOf(route.dst) == family && RouteMsgMatches(dump[SlotOf(route)], route) {
          continue;
        }
        var r := KernelAdd(table, ToMessage(route));
        if r.Ok? {
          table := r.value;
        }
      }
      assert list[..|list|] == list;
    }
  }

  // ----- tracked routes are in the kernel, one per destination -----

  predicate WellFormed(family: Family, s: RouteSpec) {
    s.family == family && FamilyOf(s.dst) == family && FamilyOf(s.gateway) == family
  }

  ghost predicate ValidTable(t: Table) {
    forall s :: s in t ==> t[s].slot == s
  }

  predicate InKernel(t: Table, s: RouteSpec) {
    SlotOf(s) in t && RouteMsgMatches(t[SlotOf(s)], s)
  }

  ghost predicate OnePerSlot(routes: seq<RouteSpec>) {
    forall i, j :: 0 <= i < j < |routes| ==> SlotOf(routes[i]) != SlotOf(routes[j])
  }

  ghost predicate Tracked(family: Family, t: Table, routes: seq<RouteSpec>) {
    && OnePerSlot(routes)
    && forall s :: s in routes ==> WellFormed(family, s) && InKernel(t, s)
  }

  lemma RemoveAtMembers(routes: seq<RouteSpec>, i: nat)
    requires OnePerSlot(routes) && i < |routes|
    ensures OnePerSlot(RemoveAt(routes, i))
    ensures forall x :: x in RemoveAt(routes, i) <==> x in routes && SlotOf(x) != SlotOf(routes[i])
  {
    var r := RemoveAt(routes, i);
    forall x | x in routes && SlotOf(x) != SlotOf(routes[i])
      ensures x in r
    {
      var j :| 0 <= j < |routes| && routes[j] == x;
      assert x == r[if j < i then j else j - 1];
    }
    forall k | 0 <= k < |r|
      ensures r[k] in routes && SlotOf(r[k]) != SlotOf(routes[i])
    {
      assert r[k] == routes[if k < i then k else k + 1];
    }
  }

  /**
    One tracked route per destination; a destination that is taken in the kernel
    holds its tracked route.  Tracked routes may be missing from the kernel.
   */
  ghost predicate Loose(family: Family, t: Table, routes: seq<RouteSpec>) {
    && OnePerSlot(routes)
    && forall s :: s in routes ==> WellFormed(family, s) && (SlotOf(s) in t ==> RouteMsgMatches(t[SlotOf(s)], s))
  }

  /** Another route is tracked for the destination of `s`, and the kernel lost it. */
  ghost predicate Blind(v: View, s: RouteSpec) {
    SlotOf(s) !in v.table && exists x :: x in v.routes && SlotOf(x) == SlotOf(s) && !RouteSpecEqual(x, s)
  }

  /**
    Adding a well-formed route: it ends up tracked and in the kernel, any other
    tracked route of its destination is gone, everything else is as before.
   */
  ghost predicate AddedEffect(family: Family, v: View, s: RouteSpec, v': View) {
    && ValidTable(v'.table) && Loose(family, v'.table, v'.routes)
    && InKernel(v'.table, s) && v'.table.Keys == v.table.Keys + {SlotOf(s)}
    && (forall q :: q in v.table && q != SlotOf(s) ==> v'.table[q] == v.table[q])
    && (forall x :: x in v'.routes && SlotOf(x) != SlotOf(s) <==> x in v.routes && SlotOf(x) != SlotOf(s))
    && (exists x :: x in v'.routes && RouteSpecEqual(x, s))
    && (forall x :: x in v'.routes ==> x == s || x in v.routes)
    && (InKernel(v.table, s) ==> v'.table == v.table)
    && (!InKernel(v.table, s) ==> v'.table[SlotOf(s)] == ToMessage(s))
    && (s !in v'.routes ==> exists x :: x in v.routes && RouteSpecEqual(x, s))
  }

  /** From any loose state, unless the add is blind. */
  lemma RouteAddedEffect(family: Family, v: View, s: RouteSpec)
    requires ValidTable(v.table) && Loose(family, v.table, v.routes) && WellFormed(family, s) && !Blind(v, s)
    ensures AddedEffect(family, v, s, RouteAdded(v, family, s))
  {
    hide AddedEffect, Blind;
    if SlotOf(s) !in v.table {
      AddedFresh(family, v, s);
    } else if RouteMsgMatches(v.table[SlotOf(s)], s) {
      AddedPresent(family, v, s);
    } else {
      AddedStale(family, v, s);
    }
  }

  /** If all tracked routes were in the kernel, the add is not blind and they still are. */
  lemma RouteAddedTracked(family: Family, v: View, s: RouteSpec)
    requires ValidTable(v.table) && Tracked(family, v.table, v.routes) && WellFormed(family, s)
    ensures var v' := RouteAdded(v, family, s);
      && AddedEffect(family, v, s, v') && Tracked(family, v'.table, v'.routes)
      && (!InKernel(v.table, s) ==> s in v'.routes)
  {
    hide RouteAdded;
    RouteAddedEffect(family, v, s);
    var v' := RouteAdded(v, family, s);
    forall x | x in v'.routes
      ensures InKernel(v'.table, x)
    {
      if SlotOf(x) != SlotOf(s) {
        assert x in v.routes;
      }
    }
  }

  /** A blind add tracks two routes for one destination. */
  lemma BlindBreaks(family: Family, v: View, s: RouteSpec)
    requires ValidTable(v.table) && Loose(family, v.table, v.routes) && WellFormed(family, s) && Blind(v, s)
    ensures RouteAdded(v, family, s) == View(v.table[SlotOf(s) := ToMessage(s)], v.routes + [s])
    ensures !OnePerSlot(RouteAdded(v, family, s).routes)
  {
    var k :| 0 <= k < |v.routes| && SlotOf(v.routes[k]) == SlotOf(s) && !RouteSpecEqual(v.routes[k], s);
    forall j | 0 <= j < |v.routes|
      ensures !RouteSpecEqual(v.routes[j], s)
    {
      assert j < k || j == k || k < j;
    }
    var all := v.routes + [s];
    assert all[k] == v.routes[k] && all[|v.routes|] == s;
    assert RouteAdded(v, family, s) == View(v.table[SlotOf(s) := ToMessage(s)], all);
  }

  lemma AddedFresh(family: Family, v: View, s: RouteSpec)
    requires ValidTable(v.table) && Loose(family, v.table, v.routes) && WellFormed(family, s) && !Blind(v, s)
    requires SlotOf(s) !in v.table
    ensures AddedEffect(family, v, s, RouteAdded(v, family, s))
  {
    var v' := View(v.table[SlotOf(s) := ToMessage(s)], AddToRouteList(v.routes, s));
    assert RouteAdded(v, family, s) == v';
    hide RouteAdded, AddToRouteList;
    LooseAppend(family, v, s);
    assert ToMessage(s).slot == SlotOf(s) && RouteMsgMatches(ToMessage(s), s);
    hide ToMessage;
  }

  lemma AddedPresent(family: Family, v: View, s: RouteSpec)
    requires ValidTable(v.table) && Loose(family, v.table, v.routes) && WellFormed(family, s)
    requires SlotOf(s) in v.table && RouteMsgMatches(v.table[SlotOf(s)], s)
    ensures AddedEffect(family, v, s, RouteAdded(v, family, s))
  {
    var v' := View(v.table, AddToRouteList(v.routes, s));
    assert RouteAdded(v, family, s) == v';
    hide RouteAdded, AddToRouteList;
    LooseAppend(family, v, s);
  }

  lemma AddedStale(family: Family, v: View, s: RouteSpec)
    requires ValidTable(v.table) && Loose(family, v.table, v.routes) && WellFormed(family, s)
    requires SlotOf(s) in v.table && !RouteMsgMatches(v.table[SlotOf(s)], s)
    ensures AddedEffect(family, v, s, RouteAdded(v, family, s))
  {
    hide RouteAdded, AddToRouteList, RemoveMsgFromRouteList;
    var routes := RemoveMsgFromRouteList(v.routes + [s], v.table[SlotOf(s)]);
    StaleComputed(family, v, s);
    StaleRemoved(family, v.table, v.routes, s, v.table[SlotOf(s)]);
    assert s in routes && RouteSpecEqual(s, s);
    assert ToMessage(s).slot == SlotOf(s) && RouteMsgMatches(ToMessage(s), s);
  }

  lemma StaleComputed(family: Family, v: View, s: RouteSpec)
    requires ValidTable(v.table) && Loose(family, v.table, v.routes) && WellFormed(family, s)
    requires SlotOf(s) in v.table && !RouteMsgMatches(v.table[SlotOf(s)], s)
    ensures RouteAdded(v, family, s) == View(
      v.table[SlotOf(s) := ToMessage(s)],
      RemoveMsgFromRouteList(v.routes + [s], v.table[SlotOf(s)]))
  {
    assert PositionOf(v.routes, s) == |v.routes| by {
      assert forall j :: 0 <= j < |v.routes| ==> v.routes[j] in v.routes;
    }
    assert (v.table - {SlotOf(s)})[SlotOf(s) := ToMessage(s)] == v.table[SlotOf(s) := ToMessage(s)];
  }

  lemma LooseAppend(family: Family, v: View, s: RouteSpec)
    requires Loose(family, v.table, v.routes) && !Blind(v, s)
    requires SlotOf(s) !in v.table || RouteMsgMatches(v.table[SlotOf(s)], s)
    ensures var added := AddToRouteList(v.routes, s);
      && OnePerSlot(added)
      && (forall x :: x in added <==> x in v.routes || (x == s && added != v.routes))
      && (forall x :: x in added && SlotOf(x) == SlotOf(s) ==> RouteSpecEqual(x, s))
      && (exists x :: x in added && RouteSpecEqual(x, s))
      && (added == v.routes ==> exists x :: x in v.routes && RouteSpecEqual(x, s))
  {
    var i := PositionOf(v.routes, s);
    forall j | 0 <= j < |v.routes| && SlotOf(v.routes[j]) == SlotOf(s)
      ensures RouteSpecEqual(v.routes[j], s)
    {
      assert v.routes[j] in v.routes;
    }
    if i < |v.routes| {
      assert v.routes[i] in v.routes;
    } else {
      assert (v.routes + [s])[|v.routes|] == s;
      assert s in AddToRouteList(v.routes, s) && RouteSpecEqual(s, s);
    }
  }

  lemma StaleRemoved(family: Family, t: Table, routes: seq<RouteSpec>, s: RouteSpec, first: RouteMessage)
    requires ValidTable(t) && Loose(family, t, routes) && SlotOf(s) in t && t[SlotOf(s)] == first
    requires !RouteMsgMatches(first, s)
    ensures var r := RemoveMsgFromRouteList(routes + [s], first);
      && OnePerSlot(r)
      && forall x :: x in r <==> x == s || (x in routes && SlotOf(x) != SlotOf(s))
  {
    var all := routes + [s];
    var i, r := PositionOfMsg(all, first), RemoveMsgFromRouteList(all, first);
    assert all[|routes|] == s;
    forall j | 0 <= j < |routes| && SlotOf(routes[j]) == SlotOf(s)
      ensures i == j
    {
      assert routes[j] in routes && RouteMsgMatches(first, all[j]);
      assert i <= j;
      assert all[i] == routes[i] && SlotOf(routes[i]) == SlotOf(s);
    }
    if i < |all| {
      assert i < |routes|;
      assert r == RemoveAt(routes, i) + [s];
      RemoveAtMembers(routes, i);
      forall k | 0 <= k < |RemoveAt(routes, i)|
        ensures SlotOf(RemoveAt(routes, i)[k]) != SlotOf(s)
      {
        assert RemoveAt(routes, i)[k] in RemoveAt(routes, i);
      }
    } else {
      assert r == all;
      assert forall j :: 0 <= j < |routes| ==> SlotOf(routes[j]) != SlotOf(s);
    }
  }

  /**
    Removing a well-formed route: an equal tracked route and a matching kernel
    route go; everything else is as before.
   */
  lemma RouteRemovedEffect(family: Family, v: View, s: RouteSpec)
    requires ValidTable(v.table) && Loose(family, v.table, v.routes) && WellFormed(family, s)
    ensures var v' := RouteRemoved(v, s);
      && ValidTable(v'.table) && Loose(family, v'.table, v'.routes)
      && v'.table == (if InKernel(v.table, s) then v.table - {SlotOf(s)} else v.table)
      && (forall x :: x in v'.routes <==> x in v.routes && !RouteSpecEqual(x, s))
  {
    assert ToMessage(s).slot == SlotOf(s) && RouteMsgMatches(ToMessage(s), s);
    var i := PositionOf(v.routes, s);
    if i < |v.routes| {
      assert v.routes[i] in v.routes;
      RemoveAtMembers(v.routes, i);
    }
    assert forall x :: x in v.routes && SlotOf(x) == SlotOf(s) && InKernel(v.table, s) ==> RouteSpecEqual(x, s);
  }

  lemma RouteRemovedTracked(family: Family, v: View, s: RouteSpec)
    requires ValidTable(v.table) && Tracked(family, v.table, v.routes) && WellFormed(family, s)
    ensures var v' := RouteRemoved(v, s); Tracked(family, v'.table, v'.routes)
  {
    hide RouteRemoved;
    RouteRemovedEffect(family, v, s);
    assert forall x :: x in v.routes && SlotOf(x) == SlotOf(s) && InKernel(v.table, s) ==> RouteSpecEqual(x, s);
  }
}
