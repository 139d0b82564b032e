/**
  Runs of the route network in which somebody else deletes routes between the
  lease events and the periodic checks.
 */
module RouteFaults {
  import opened Base
  import opened IpNet
  import opened Lease
  import opened RouteNetwork
  import opened RouteRuns

  datatype Step = Handle(event: Event) | Deleted(gone: set<Slot>) | Check

  function After(b: Backend, st: State, step: Step): State {
    match step
    case Handle(e) => Handled(b, st, e)
    case Deleted(gone) => State(st.table - gone, st.routes, st.v6Routes)
    case Check => Checked(st)
  }

  function AfterAll(b: Backend, st: State, steps: seq<Step>): State {
    if steps == [] then st
    else After(b, AfterAll(b, st, steps[..|steps| - 1]), steps[|steps| - 1])
  }

  /** One route per destination in each list, and no destination of a tracked route holds another route. */
  ghost predicate LooseState(st: State) {
    ValidTable(st.table) && Loose(Inet, st.table, st.routes) && Loose(Inet6, st.table, st.v6Routes)
  }

  /** One route per destination in each list. */
  ghost predicate Single(st: State) {
    OnePerSlot(st.routes) && OnePerSlot(st.v6Routes)
  }

  lemma LooseIsSingle(st: State)
    requires LooseState(st)
    ensures Single(st)
  {
  }

  /**
    The step is not an add that changes the route of a destination which the
    kernel lost; this can be seen from the state before the step.
   */
  ghost predicate Safe(b: Backend, st: State, step: Step) {
    step.Handle? && step.event.kind == Added && step.event.lease.attrs.backendType == b.backendType
      && (step.event.lease.enableIpv4 ==> b.getRoute.Some?) ==>
      && (step.event.lease.enableIpv4 ==> !Blind(View(st.table, st.routes), b.getRoute.value(step.event.lease)))
      && (step.event.lease.enableIpv6 && b.getV6Route.Some? ==>
            !Blind(View(st.table, st.v6Routes), b.getV6Route.value(step.event.lease)))
  }

  // ----- one family -----

  /** An event keeps one family loose exactly if it is not a blind add, and leaves all other destinations alone. */
  lemma OnFamilyLoose(family: Family, kind: EventType, v: View, s: RouteSpec)
    requires ValidTable(v.table) && Loose(family, v.table, v.routes) && WellFormed(family, s)
    ensures var v' := OnFamily(family, kind, v, s);
      && ValidTable(v'.table)
      && (Loose(family, v'.table, v'.routes) <==> !(kind == Added && Blind(v, s)))
      && (OnePerSlot(v'.routes) <==> !(kind == Added && Blind(v, s)))
      && (forall q :: q != SlotOf(s) ==>
            (q in v'.table <==> q in v.table) && (q in v.table ==> v'.table[q] == v.table[q]))
  {
    if kind == Removed {
      RouteRemovedEffect(family, v, s);
    } else if Blind(v, s) {
      BlindBreaks(family, v, s);
      assert ToMessage(s).slot == SlotOf(s);
    } else {
      RouteAddedEffect(family, v, s);
    }
  }

  lemma LooseElsewhere(family: Family, t: Table, u: Table, routes: seq<RouteSpec>)
    requires forall q: Slot :: q.dst.V4? == (family == Inet) ==> (q in u <==> q in t) && (q in t ==> u[q] == t[q])
    requires forall s :: s in routes ==> SlotOf(s).dst.V4? == (family == Inet)
    ensures Loose(family, u, routes) <==> Loose(family, t, routes)
  {
  }

  lemma OwnFamily(family: Family, t: Table, routes: seq<RouteSpec>, s: RouteSpec)
    requires Loose(family, t, routes) && WellFormed(family, s)
    ensures forall x :: x in routes + [s] ==> SlotOf(x).dst.V4? == (family == Inet)
  {
  }

  lemma RoutesOfFamily(family: Family, kind: EventType, v: View, s: RouteSpec)
    ensures forall x :: x in OnFamily(family, kind, v, s).routes ==> x in v.routes + [s]
  {
    hide KernelAdd, KernelDel, RouteMsgMatches, PositionOf, PositionOfMsg, ListByDst;
  }

  // ----- one step -----

  /** The part of a blind add that the other family sees: nothing. */
  lemma BlindElsewhere(t: Table, u: Table, routes: seq<RouteSpec>, s: RouteSpec)
    requires SlotOf(s) in t <==> SlotOf(s) in u
    ensures Blind(View(t, routes), s) <==> Blind(View(u, routes), s)
  {
  }

  lemma V4Loose(b: Backend, st: State, e: Event)
    requires SoundBackend(b) && LooseState(st) && b.getRoute.Some?
    ensures var st' := V4Handled(b, st, e);
      var blind := e.kind == Added && Blind(View(st.table, st.routes), b.getRoute.value(e.lease));
      && ValidTable(st'.table) && (Loose(Inet, st'.table, st'.routes) <==> !blind)
      && (OnePerSlot(st'.routes) <==> !blind)
      && Loose(Inet6, st'.table, st.v6Routes) && st'.v6Routes == st.v6Routes
      && (forall q: Slot :: q.dst.V6? ==> (q in st'.table <==> q in st.table))
  {
    hide OnFamily, Blind;
    var s := b.getRoute.value(e.lease);
    OnFamilyLoose(Inet, e.kind, View(st.table, st.routes), s);
    LooseElsewhere(Inet6, st.table, V4Handled(b, st, e).table, st.v6Routes);
  }

  lemma V6Loose(b: Backend, st: State, e: Event)
    requires SoundBackend(b) && b.getV6Route.Some?
    requires ValidTable(st.table) && Loose(Inet6, st.table, st.v6Routes)
    requires forall s :: s in st.routes ==> SlotOf(s).dst.V4?
    ensures var st' := V6Handled(b, st, e);
      var blind := e.kind == Added && Blind(View(st.table, st.v6Routes), b.getV6Route.value(e.lease));
      && ValidTable(st'.table) && (Loose(Inet6, st'.table, st'.v6Routes) <==> !blind)
      && (OnePerSlot(st'.v6Routes) <==> !blind) && st'.routes == st.routes
      && (Loose(Inet, st'.table, st'.routes) <==> Loose(Inet, st.table, st.routes))
  {
    hide OnFamily, Blind;
    var s := b.getV6Route.value(e.lease);
    OnFamilyLoose(Inet6, e.kind, View(st.table, st.v6Routes), s);
    LooseElsewhere(Inet, st.table, V6Handled(b, st, e).table, st.routes);
  }

  lemma HandledLoose(b: Backend, st: State, e: Event)
    requires SoundBackend(b) && LooseState(st)
    ensures LooseState(Handled(b, st, e)) <==> Safe(b, st, Handle(e))
    ensures Single(Handled(b, st, e)) <==> Safe(b, st, Handle(e))
  {
    LooseIsSingle(st);
    hide V4Handled, V6Handled, Blind, Loose;
    if e.lease.attrs.backendType == b.backendType && (e.lease.enableIpv4 ==> b.getRoute.Some?) {
      var st1 := st;
      if e.lease.enableIpv4 {
        V4Loose(b, st, e);
        st1 := V4Handled(b, st, e);
      }
      V4RoutesStayV4(b, st, e);
      if e.lease.enableIpv6 && b.getV6Route.Some? {
        V6Loose(b, st1, e);
        BlindElsewhere(st.table, st1.table, st.v6Routes, b.getV6Route.value(e.lease));
      }
    }
  }

  lemma V4RoutesStayV4(b: Backend, st: State, e: Event)
    requires SoundBackend(b) && LooseState(st)
    ensures forall s :: s in st.routes ==> SlotOf(s).dst.V4?
    ensures b.getRoute.Some? ==> forall s :: s in V4Handled(b, st, e).routes ==> SlotOf(s).dst.V4?
    ensures b.getV6Route.Some? ==> SlotOf(b.getV6Route.value(e.lease)).dst.V6?
  {
    hide OnFamily;
    if b.getRoute.Some? {
      var s := b.getRoute.value(e.lease);
      OwnFamily(Inet, st.table, st.routes, s);
      RoutesOfFamily(Inet, e.kind, View(st.table, st.routes), s);
    }
  }

  /** A check pass over a loose family puts every tracked route into the kernel. */
  lemma {:induction false} PassTracks(family: Family, t: Table, routes: seq<RouteSpec>)
    requires ValidTable(t) && Loose(family, t, routes)
    ensures var t' := RecoveredAll(t, family, t, routes);
      && ValidTable(t') && Tracked(family, t', routes)
      && (forall q :: q in t ==> q in t' && t'[q] == t[q])
      && (forall q :: q in t' && q !in t ==> q in Slots(routes))
  {
    CheckPassEffect(family, t, routes);
    hide RecoveredAll;
    assert forall s :: s in routes ==> ToMessage(s).slot == SlotOf(s) && RouteMsgMatches(ToMessage(s), s);
    assert forall s :: s in routes ==> SlotOf(s) in Slots(routes);
  }

  /** From every loose state the periodic check makes all tracked routes present. */
  lemma CheckMakesSound(st: State)
    requires LooseState(st)
    ensures Sound(Checked(st)) && LooseState(Checked(st))
  {
    var t := RecoveredAll(st.table, Inet, st.table, st.routes);
    PassTracks(Inet, st.table, st.routes);
    assert forall q :: q in Slots(st.routes) ==> q.dst.V4?;
    LooseElsewhere(Inet6, st.table, t, st.v6Routes);
    PassTracks(Inet6, t, st.v6Routes);
    TrackedElsewhere(Inet, t, Checked(st).table, st.routes);
  }

  /** A step from a loose state leads to a loose state if and only if it is safe. */
  lemma StepLoose(b: Backend, st: State, step: Step)
    requires SoundBackend(b) && LooseState(st)
    ensures LooseState(After(b, st, step)) <==> Safe(b, st, step)
    ensures Single(After(b, st, step)) <==> Safe(b, st, step)
  {
    LooseIsSingle(st);
    match step {
      case Handle(e) => HandledLoose(b, st, e);
      case Deleted(_) =>
      case Check => CheckMakesSound(st);
    }
  }

  // ----- runs -----

  /** Every step of the run is safe in the state it finds. */
  ghost predicate AllSafe(b: Backend, table: Table, steps: seq<Step>) {
    forall n :: 0 <= n < |steps| ==> Safe(b, AfterAll(b, State(table, [], []), steps[..n]), steps[n])
  }

  /**
    Over every interleaving of lease events, outside deletions and checks: the
    lists have one route per destination throughout if and only if every step is
    safe, and then no destination of a tracked route ever holds another route.
   */
  lemma {:induction false} RunLoose(b: Backend, table: Table, steps: seq<Step>)
    requires SoundBackend(b) && ValidTable(table)
    ensures (forall n :: 0 <= n <= |steps| ==> Single(AfterAll(b, State(table, [], []), steps[..n])))
       <==> AllSafe(b, table, steps)
    ensures AllSafe(b, table, steps) ==>
      forall n :: 0 <= n <= |steps| ==> LooseState(AfterAll(b, State(table, [], []), steps[..n]))
  {
    hide LooseState, Single, Safe, After, AfterAll;
    var st := State(table, [], []);
    if AllSafe(b, table, steps) {
      forall n | 0 <= n <= |steps|
        ensures LooseState(AfterAll(b, st, steps[..n])) && Single(AfterAll(b, st, steps[..n]))
      {
        SafeIsLoose(b, table, steps, n);
        LooseIsSingle(AfterAll(b, st, steps[..n]));
      }
    }
    if forall n :: 0 <= n <= |steps| ==> Single(AfterAll(b, st, steps[..n])) {
      SingleIsSafe(b, table, steps, |steps|);
    }
  }

  lemma {:induction false} SingleIsSafe(b: Backend, table: Table, steps: seq<Step>, n: nat)
    requires SoundBackend(b) && ValidTable(table) && n <= |steps|
    requires forall i :: 0 <= i <= |steps| ==> Single(AfterAll(b, State(table, [], []), steps[..i]))
    ensures LooseState(AfterAll(b, State(table, [], []), steps[..n]))
    ensures forall i :: 0 <= i < n ==> Safe(b, AfterAll(b, State(table, [], []), steps[..i]), steps[i])
    decreases n
  {
    hide LooseState, Single, Safe, After;
    if n == 0 {
      NothingTracked(table);
      assert steps[..0] == [];
    } else {
      SingleIsSafe(b, table, steps, n - 1);
      OneMore(b, State(table, [], []), steps, n - 1);
      StepLoose(b, AfterAll(b, State(table, [], []), steps[..n - 1]), steps[n - 1]);
    }
  }

  lemma NothingTracked(table: Table)
    requires ValidTable(table)
    ensures LooseState(State(table, [], []))
  {
  }

  lemma {:induction false} OneMore(b: Backend, st: State, steps: seq<Step>, n: nat)
    requires n < |steps|
    ensures AfterAll(b, st, steps[..n + 1]) == After(b, AfterAll(b, st, steps[..n]), steps[n])
  {
    hide After;
    assert steps[..n + 1][..n] == steps[..n];
  }

  lemma {:induction false} SafeIsLoose(b: Backend, table: Table, steps: seq<Step>, n: nat)
    requires SoundBackend(b) && ValidTable(table) && n <= |steps|
    requires AllSafe(b, table, steps)
    ensures LooseState(AfterAll(b, State(table, [], []), steps[..n]))
    decreases n
  {
    if n > 0 {
      hide LooseState, Safe, After;
      SafeIsLoose(b, table, steps, n - 1);
      OneMore(b, State(table, [], []), steps, n - 1);
      StepLoose(b, AfterAll(b, State(table, [], []), steps[..n - 1]), steps[n - 1]);
    }
  }

  /** After a run of safe steps the next check leaves every tracked route in the kernel, one per destination. */
  lemma {:induction false} RunThenCheck(b: Backend, table: Table, steps: seq<Step>)
    requires SoundBackend(b) && ValidTable(table)
    requires AllSafe(b, table, steps)
    ensures Sound(Checked(AfterAll(b, State(table, [], []), steps)))
  {
    SafeIsLoose(b, table, steps, |steps|);
    assert steps[..|steps|] == steps;
    CheckMakesSound(AfterAll(b, State(table, [], []), steps));
  }
}
