/**
  What the watcher stores and emits, read off its inputs alone: the last event of
  a subnet since the last snapshot decides, and every event of another node is
  passed on once.
 */
module LeaseEffects {
  import opened Base
  import opened IpNet
  import opened Lease
  import opened LeaseRuns

  /** The comparison of two leases: every family the flags enable must agree, and IPv4 if they enable none. */
  lemma SameSubnetMeaning(ipv4: bool, ipv6: bool, a: Lease, b: Lease)
    ensures SameSubnet(ipv4, ipv6, a, b) <==>
      && (ipv4 || !ipv6 ==> a.subnet == b.subnet)
      && (ipv6 ==> a.ipv6Subnet == b.ipv6Subnet)
  {
  }

  // ----- updates -----

  /** The last event of a subnet. */
  function LastOf(events: seq<Event>, k: Key): Option<Event> {
    if events == [] then None
    else if KeyOf(events[|events| - 1].lease) == k then Some(events[|events| - 1])
    else LastOf(events[..|events| - 1], k)
  }

  /** The lease is stored once the events have come on top of the list `ls`. */
  ghost predicate StoredAfter(own: Lease, ls: seq<Lease>, events: seq<Event>, l: Lease) {
    if KeyOf(l) == KeyOf(own) then l in ls
    else match LastOf(events, KeyOf(l))
      case None => l in ls
      case Some(e) => e.kind == Added && e.lease == l
  }

  /**
    A lease of another node is stored after an update exactly if the last event of
    its subnet added it, or there was none and it was stored before.  The own
    subnet is left alone.
   */
  lemma {:induction false} UpdateStores(own: Lease, ls: seq<Lease>, events: seq<Event>)
    requires Uniform(own, ls) && NoDup(ls) && UniformEvents(own, events)
    ensures var after := UpdateAll(own, ls, events).leases;
      NoDup(after) && Uniform(own, after) && forall l :: l in after <==> StoredAfter(own, ls, events, l)
  {
    hide NoDup, AddTo, RemoveFrom, IsOwn, KeyOf;
    if events == [] {
    } else {
      var n := |events| - 1;
      var p, e := events[..n], events[n];
      assert e in events && UniformEvents(own, p);
      UpdateStores(own, ls, p);
      var before := UpdateAll(own, ls, p).leases;
      MatchIsKeyEquality(own, own, e.lease);
      AddToMembers(own, before, e.lease);
      RemoveFromMembers(own, before, e.lease);
      forall l
        ensures l in UpdateAll(own, ls, events).leases <==> StoredAfter(own, ls, events, l)
      {
        assert l in before <==> StoredAfter(own, ls, p, l);
      }
    }
  }

  /** The lease that a removal finds: of the last event if that was an addition, of the list if there was no event. */
  ghost predicate Finds(own: Lease, ls: seq<Lease>, events: seq<Event>, k: Key, l: Lease) {
    KeyOf(l) == k && StoredAfter(own, ls, events, l)
  }

  /** What is passed on for an event: an addition as it is, a removal with the lease it finds, or else its own. */
  ghost predicate PassedOn(own: Lease, ls: seq<Lease>, before: seq<Event>, e: Event, out: Event) {
    && out.kind == e.kind
    && (e.kind == Added ==> out == e)
    && (e.kind == Removed ==>
          if exists l :: Finds(own, ls, before, KeyOf(e.lease), l)
          then Finds(own, ls, before, KeyOf(e.lease), out.lease)
          else out.lease == e.lease)
  }

  /** The events of other nodes. */
  function PeerEvents(own: Lease, events: seq<Event>): seq<Event> {
    if events == [] then []
    else
      var before, e := PeerEvents(own, events[..|events| - 1]), events[|events| - 1];
      if KeyOf(e.lease) == KeyOf(own) then before else before + [e]
  }

  /** `batch` passes on the events of other nodes, one for one and in order. */
  ghost predicate PassesOn(own: Lease, ls: seq<Lease>, events: seq<Event>, batch: seq<Event>) {
    if events == [] then batch == []
    else
      var p, e := events[..|events| - 1], events[|events| - 1];
      if KeyOf(e.lease) == KeyOf(own) then PassesOn(own, ls, p, batch)
      else batch != [] && PassesOn(own, ls, p, batch[..|batch| - 1]) && PassedOn(own, ls, p, e, batch[|batch| - 1])
  }

  lemma {:induction false} UpdateEmits(own: Lease, ls: seq<Lease>, events: seq<Event>)
    requires Uniform(own, ls) && NoDup(ls) && UniformEvents(own, events)
    ensures PassesOn(own, ls, events, UpdateAll(own, ls, events).batch)
  {
    hide NoDup, AddTo, RemoveFrom, IsOwn, KeyOf, PassedOn, RemovedLease, StoredAfter;
    if events == [] {
    } else {
      var n := |events| - 1;
      var p, e := events[..n], events[n];
      assert e in events && UniformEvents(own, p);
      UpdateEmits(own, ls, p);
      UpdateStores(own, ls, p);
      MatchIsKeyEquality(own, own, e.lease);
      var o, o' := UpdateAll(own, ls, p), UpdateAll(own, ls, events);
      if KeyOf(e.lease) != KeyOf(own) {
        var out := if e.kind == Added then e else Event(Removed, RemovedLease(o.leases, e.lease));
        assert o'.batch == o.batch + [out];
        assert o'.batch[..|o'.batch| - 1] == o.batch;
        OnePassedOn(own, ls, p, e, out);
      }
    }
  }

  lemma {:induction false} OnePassedOn(own: Lease, ls: seq<Lease>, p: seq<Event>, e: Event, out: Event)
    requires Uniform(own, ls) && NoDup(ls) && UniformEvents(own, p) && SameFlags(own, e.lease)
    requires var o := UpdateAll(own, ls, p);
      out == if e.kind == Added then e else Event(Removed, RemovedLease(o.leases, e.lease))
    ensures PassedOn(own, ls, p, e, out)
  {
    hide NoDup, KeyOf, StoredAfter, UpdateAll;
    UpdateStores(own, ls, p);
    FindMatchByKey(own, UpdateAll(own, ls, p).leases, e.lease);
  }

  /** Kinds and subnets of what is passed on are those of the peer events, one for one. */
  lemma {:induction false} PassesOnShape(own: Lease, ls: seq<Lease>, events: seq<Event>, batch: seq<Event>)
    requires PassesOn(own, ls, events, batch)
    ensures var peers := PeerEvents(own, events);
      && |batch| == |peers|
      && forall i :: 0 <= i < |batch| ==>
           batch[i].kind == peers[i].kind && KeyOf(batch[i].lease) == KeyOf(peers[i].lease)
    decreases |events|
  {
    hide KeyOf, StoredAfter;
    if events == [] {
    } else {
      var p, e := events[..|events| - 1], events[|events| - 1];
      PassesOnShape(own, ls, p, if KeyOf(e.lease) == KeyOf(own) then batch else batch[..|batch| - 1]);
    }
  }

  // ----- resets -----

  ghost predicate Lists(ls: seq<Lease>, k: Key) {
    exists l :: l in ls && KeyOf(l) == k
  }

  /** Added, in the order of the snapshot: the leases of other nodes whose subnet was not stored. */
  ghost function NewEvents(own: Lease, ls: seq<Lease>, snapshot: seq<Lease>): seq<Event> {
    if snapshot == [] then []
    else
      var before, l := NewEvents(own, ls, snapshot[..|snapshot| - 1]), snapshot[|snapshot| - 1];
      if KeyOf(l) != KeyOf(own) && !Lists(ls, KeyOf(l)) then before + [Event(Added, l)] else before
  }

  /** In the order of the list: the stored leases whose subnet the snapshot does not list, and the own one. */
  ghost function Unlisted(own: Lease, ls: seq<Lease>, snapshot: seq<Lease>): seq<Lease> {
    if ls == [] then []
    else
      var before, l := Unlisted(own, ls[..|ls| - 1], snapshot), ls[|ls| - 1];
      if KeyOf(l) == KeyOf(own) || !Lists(snapshot, KeyOf(l)) then before + [l] else before
  }

  /** A reset emits exactly the additions of new subnets and the removals of unlisted ones, and stores the snapshot. */
  lemma {:induction false} ResetEmits(own: Lease, ls: seq<Lease>, snapshot: seq<Lease>)
    requires Uniform(own, ls) && NoDup(ls) && Uniform(own, snapshot) && NoDup(snapshot)
    ensures var o := ResetAll(own, ls, snapshot);
      && o.leases == snapshot
      && o.batch == NewEvents(own, ls, snapshot) + RemovedEvents(Unlisted(own, ls, snapshot))
  {
    ScanIs(own, ls, snapshot);
  }

  lemma {:induction false} ScanIs(own: Lease, ls: seq<Lease>, snapshot: seq<Lease>)
    requires Uniform(own, ls) && NoDup(ls) && Uniform(own, snapshot) && NoDup(snapshot)
    ensures ScanSnapshot(own, ls, snapshot) == Outcome(Unlisted(own, ls, snapshot), NewEvents(own, ls, snapshot))
  {
    hide NoDup, FindMatch, RemoveFrom, IsOwn, KeyOf, Lists;
    if snapshot == [] {
      NothingListed(own, ls);
    } else {
      var n := |snapshot| - 1;
      var p, nl := snapshot[..n], snapshot[n];
      assert snapshot == p + [nl];
      ProperPrefix(own, p, nl);
      ScanIs(own, ls, p);
      var rest := Unlisted(own, ls, p);
      MatchIsKeyEquality(own, own, nl);
      UnlistedMembers(own, ls, p);
      UniformPart(own, ls, rest);
      FindMatchByKey(own, rest, nl);
      NotBefore(p, nl);
      if KeyOf(nl) == KeyOf(own) {
        OwnListed(own, ls, p, nl);
      } else {
        assert Lists(rest, KeyOf(nl)) <==> Lists(ls, KeyOf(nl)) by {
          StillListed(own, ls, p, KeyOf(nl));
        }
        assert (FindMatch(rest, nl) < |rest|) <==> Lists(rest, KeyOf(nl)) by {
          FoundIsListed(rest, nl);
        }
        UnlistedStep(own, ls, p, nl);
        NotFound(rest, nl);
      }
    }
  }

  lemma NotFound(rest: seq<Lease>, nl: Lease)
    ensures FindMatch(rest, nl) >= |rest| ==> RemoveFrom(rest, nl) == rest
  {
  }

  lemma {:induction false} NothingListed(own: Lease, ls: seq<Lease>)
    ensures Unlisted(own, ls, []) == ls
  {
    if ls == [] {
    } else {
      NothingListed(own, ls[..|ls| - 1]);
    }
  }

  lemma {:induction false} UnlistedMembers(own: Lease, ls: seq<Lease>, snapshot: seq<Lease>)
    requires NoDup(ls)
    ensures forall x :: x in Unlisted(own, ls, snapshot) <==>
      x in ls && (KeyOf(x) == KeyOf(own) || !Lists(snapshot, KeyOf(x)))
    ensures NoDup(Unlisted(own, ls, snapshot))
    decreases |ls|
  {
    hide KeyOf, Lists;
    if ls == [] {
    } else {
      var n := |ls| - 1;
      var r := Unlisted(own, ls[..n], snapshot);
      UnlistedMembers(own, ls[..n], snapshot);
      assert ls == ls[..n] + [ls[n]];
      forall i | 0 <= i < |r|
        ensures KeyOf(r[i]) != KeyOf(ls[n])
      {
        assert r[i] in r && r[i] in ls[..n];
        var j :| 0 <= j < n && ls[j] == r[i];
      }
    }
  }

  lemma UniformPart(own: Lease, ls: seq<Lease>, rest: seq<Lease>)
    requires Uniform(own, ls) && forall x :: x in rest ==> x in ls
    ensures Uniform(own, rest)
  {
  }

  lemma NotBefore(p: seq<Lease>, nl: Lease)
    requires NoDup(p + [nl])
    ensures !Lists(p, KeyOf(nl))
  {
    var q := p + [nl];
    forall l | l in p
      ensures KeyOf(l) != KeyOf(nl)
    {
      var j :| 0 <= j < |p| && p[j] == l;
      assert q[j] == l && q[|p|] == nl;
    }
  }

  lemma FoundIsListed(rest: seq<Lease>, nl: Lease)
    requires if FindMatch(rest, nl) < |rest| then
        rest[FindMatch(rest, nl)] in rest && KeyOf(rest[FindMatch(rest, nl)]) == KeyOf(nl)
      else forall x :: x in rest ==> KeyOf(x) != KeyOf(nl)
    ensures (FindMatch(rest, nl) < |rest|) <==> Lists(rest, KeyOf(nl))
  {
    hide FindMatch, KeyOf;
  }

  lemma {:induction false} StillListed(own: Lease, ls: seq<Lease>, p: seq<Lease>, k: Key)
    requires NoDup(ls) && k != KeyOf(own) && !Lists(p, k)
    ensures Lists(Unlisted(own, ls, p), k) <==> Lists(ls, k)
  {
    UnlistedMembers(own, ls, p);
    hide Unlisted, KeyOf, NoDup;
    if Lists(ls, k) {
      var l :| l in ls && KeyOf(l) == k;
      assert l in Unlisted(own, ls, p);
    }
  }

  lemma ListsStep(p: seq<Lease>, nl: Lease, k: Key)
    ensures Lists(p + [nl], k) <==> Lists(p, k) || KeyOf(nl) == k
  {
    var q := p + [nl];
    assert q[|p|] == nl && nl in q && forall l :: l in p ==> l in q;
  }

  lemma {:induction false} OwnListed(own: Lease, ls: seq<Lease>, p: seq<Lease>, nl: Lease)
    requires KeyOf(nl) == KeyOf(own)
    ensures Unlisted(own, ls, p + [nl]) == Unlisted(own, ls, p)
    decreases |ls|
  {
    hide KeyOf, Lists;
    if ls == [] {
    } else {
      OwnListed(own, ls[..|ls| - 1], p, nl);
      ListsStep(p, nl, KeyOf(ls[|ls| - 1]));
    }
  }

  /** Listing one more subnet takes its lease out of the unlisted ones. */
  lemma {:induction false} UnlistedStep(own: Lease, ls: seq<Lease>, p: seq<Lease>, nl: Lease)
    requires Uniform(own, ls) && NoDup(ls) && SameFlags(own, nl) && KeyOf(nl) != KeyOf(own)
    ensures Unlisted(own, ls, p + [nl]) == RemoveFrom(Unlisted(own, ls, p), nl)
    decreases |ls|
  {
    hide KeyOf, Lists, FindMatch, RemoveFrom;
    if ls == [] {
      RemoveFromNothing(nl);
    } else {
      var n := |ls| - 1;
      var front, l := ls[..n], ls[n];
      assert ls == front + [l];
      ProperPrefix(own, front, l);
      NotBefore(front, l);
      UnlistedStep(own, front, p, nl);
      ListsStep(p, nl, KeyOf(l));
      var r := Unlisted(own, front, p);
      UnlistedMembers(own, front, p);
      UniformPart(own, front, r);
      RemoveFromAppend(own, r, l, nl, front);
    }
  }

  lemma RemoveFromNothing(l: Lease)
    ensures RemoveFrom([], l) == []
  {
  }

  lemma {:induction false} RemoveFromAppend(own: Lease, r: seq<Lease>, l: Lease, nl: Lease, front: seq<Lease>)
    requires Uniform(own, r) && SameFlags(own, l) && SameFlags(own, nl)
    requires (forall x :: x in r ==> x in front) && !Lists(front, KeyOf(l))
    ensures RemoveFrom(r + [l], nl) == if KeyOf(l) == KeyOf(nl) then r else RemoveFrom(r, nl) + [l]
    ensures KeyOf(l) == KeyOf(nl) ==> RemoveFrom(r, nl) == r
  {
    var i, j, q := FindMatch(r, nl), FindMatch(r + [l], nl), r + [l];
    assert forall x :: x in q ==> x in r || x == l;
    FindMatchByKey(own, r, nl);
    FindMatchByKey(own, q, nl);
    hide KeyOf;
    assert forall k :: 0 <= k < |r| ==> q[k] == r[k];
    assert q[|r|] == l;
    if KeyOf(l) == KeyOf(nl) {
      assert i == |r| && j == |r|;
      assert q[..|r|] + q[|r| + 1..] == r;
    } else if i < |r| {
      assert j == i;
      assert q[..i] + q[i + 1..] == r[..i] + r[i + 1..] + [l];
    } else {
      assert j == |q|;
    }
  }

  // ----- runs -----

  /** The last snapshot of the run, if it had one. */
  function LastSnapshot(inputs: seq<Input>): seq<Lease> {
    if inputs == [] then []
    else match inputs[|inputs| - 1]
      case Reset(snapshot) => snapshot
      case Update(_) => LastSnapshot(inputs[..|inputs| - 1])
  }

  /** The events that came since. */
  function EventsSince(inputs: seq<Input>): seq<Event> {
    if inputs == [] then []
    else match inputs[|inputs| - 1]
      case Reset(_) => []
      case Update(events) => EventsSince(inputs[..|inputs| - 1]) + events
  }

  /** How many inputs there were up to and with the last snapshot. */
  function UpToSnapshot(inputs: seq<Input>): (n: nat)
    ensures n <= |inputs|
  {
    if inputs == [] then 0
    else match inputs[|inputs| - 1]
      case Reset(_) => |inputs|
      case Update(_) => UpToSnapshot(inputs[..|inputs| - 1])
  }

  lemma {:induction false} UpdateConcat(own: Lease, ls: seq<Lease>, a: seq<Event>, b: seq<Event>)
    ensures var o := UpdateAll(own, ls, a);
      var o' := UpdateAll(own, o.leases, b);
      UpdateAll(own, ls, a + b) == Outcome(o'.leases, o.batch + o'.batch)
  {
    hide AddTo, RemoveFrom, RemovedLease, IsOwn;
    var o := UpdateAll(own, ls, a);
    if b == [] {
      assert a + b == a && o.batch + [] == o.batch;
    } else {
      var e := b[|b| - 1];
      UpdateConcat(own, ls, a, b[..|b| - 1]);
      assert (a + b)[..|a + b| - 1] == a + b[..|b| - 1] && (a + b)[|a + b| - 1] == e;
      OneMore(own, UpdateAll(own, o.leases, b[..|b| - 1]), o.batch, e);
    }
  }

  /** What an event does depends on the stored leases only. */
  lemma OneMore(own: Lease, o: Outcome, before: seq<Event>, e: Event)
    ensures var o' := UpdateOne(own, o, e);
      UpdateOne(own, Outcome(o.leases, before + o.batch), e) == Outcome(o'.leases, before + o'.batch)
  {
    hide AddTo, RemoveFrom, RemovedLease, IsOwn;
    forall x: seq<Event>
      ensures before + o.batch + x == before + (o.batch + x)
    {
    }
  }

  lemma ResetStores(own: Lease, ls: seq<Lease>, snapshot: seq<Lease>)
    ensures ResetAll(own, ls, snapshot).leases == snapshot
  {
  }

  lemma {:induction false} UpdateNothing(own: Lease, ls: seq<Lease>)
    ensures UpdateAll(own, ls, []) == Outcome(ls, [])
  {
  }

  lemma {:induction false} RunSince(own: Lease, inputs: seq<Input>)
    ensures var o := UpdateAll(own, LastSnapshot(inputs), EventsSince(inputs));
      Run(own, inputs) == Outcome(o.leases, Run(own, inputs[..UpToSnapshot(inputs)]).batch + o.batch)
  {
    hide UpdateAll, ResetAll;
    var k := UpToSnapshot(inputs);
    UpdateNothing(own, LastSnapshot(inputs));
    assert Run(own, inputs).batch + [] == Run(own, inputs).batch;
    if inputs == [] {
    } else {
      var n := |inputs| - 1;
      var before := inputs[..n];
      match inputs[n] {
        case Update(events) =>
          RunSince(own, before);
          UpdateConcat(own, LastSnapshot(before), EventsSince(before), events);
          assert before[..k] == inputs[..k];
          var x, y := Run(own, inputs[..k]).batch, UpdateAll(own, LastSnapshot(before), EventsSince(before)).batch;
          var z := UpdateAll(own, Run(own, before).leases, events).batch;
          assert x + y + z == x + (y + z);
        case Reset(snapshot) =>
          assert inputs[..k] == inputs;
          ResetStores(own, Run(own, before).leases, snapshot);
      }
    }
  }

  lemma {:induction false} SinceProper(own: Lease, inputs: seq<Input>)
    requires ProperRun(own, inputs)
    ensures Uniform(own, LastSnapshot(inputs)) && NoDup(LastSnapshot(inputs)) && UniformEvents(own, EventsSince(inputs))
  {
    if inputs == [] {
    } else {
      var n := |inputs| - 1;
      assert Proper(own, inputs[n]) && ProperRun(own, inputs[..n]);
      SinceProper(own, inputs[..n]);
    }
  }

  /**
    What is stored after every run, read off the inputs: a lease of another node
    exactly if the last event of its subnet since the last snapshot added it, or
    there was none and the snapshot lists it; the own lease exactly if the
    snapshot lists it.
   */
  lemma {:induction false} RunStores(own: Lease, inputs: seq<Input>, l: Lease)
    requires ProperRun(own, inputs)
    ensures l in Run(own, inputs).leases <==> StoredAfter(own, LastSnapshot(inputs), EventsSince(inputs), l)
  {
    hide Run, UpdateAll, LastSnapshot, EventsSince, StoredAfter, ProperRun;
    RunSince(own, inputs);
    SinceProper(own, inputs);
    UpdateStores(own, LastSnapshot(inputs), EventsSince(inputs));
  }

  /** What was emitted since the last snapshot passes on the events since then. */
  lemma {:induction false} EmittedSince(own: Lease, inputs: seq<Input>) returns (batch: seq<Event>)
    requires ProperRun(own, inputs)
    ensures Run(own, inputs).batch == Run(own, inputs[..UpToSnapshot(inputs)]).batch + batch
    ensures PassesOn(own, LastSnapshot(inputs), EventsSince(inputs), batch)
  {
    hide Run, UpdateAll, LastSnapshot, EventsSince, PassesOn, ProperRun;
    RunSince(own, inputs);
    SinceProper(own, inputs);
    UpdateEmits(own, LastSnapshot(inputs), EventsSince(inputs));
    batch := UpdateAll(own, LastSnapshot(inputs), EventsSince(inputs)).batch;
  }

  /** What one more input emits after every run, read off the input and the leases stored at that point. */
  lemma {:induction false} RunEmits(own: Lease, inputs: seq<Input>, i: Input)
    requires ProperRun(own, inputs) && Proper(own, i)
    ensures var ls, batch := Run(own, inputs).leases, StepRun(own, Run(own, inputs).leases, i).batch;
      && Run(own, inputs + [i]).batch == Run(own, inputs).batch + batch
      && match i
         case Update(events) => PassesOn(own, ls, events, batch)
         case Reset(snapshot) => batch == NewEvents(own, ls, snapshot) + RemovedEvents(Unlisted(own, ls, snapshot))
  {
    hide PassesOn, NewEvents, Unlisted, UpdateAll, ResetAll;
    assert (inputs + [i])[..|inputs|] == inputs;
    StoredProper(own, inputs);
    var ls := Run(own, inputs).leases;
    match i {
      case Update(events) => UpdateEmits(own, ls, events);
      case Reset(snapshot) => ResetEmits(own, ls, snapshot);
    }
  }

  lemma {:induction false} StoredProper(own: Lease, inputs: seq<Input>)
    requires ProperRun(own, inputs)
    ensures Uniform(own, Run(own, inputs).leases) && NoDup(Run(own, inputs).leases)
  {
    hide Run, UpdateAll, LastSnapshot, EventsSince, StoredAfter, ProperRun;
    RunSince(own, inputs);
    SinceProper(own, inputs);
    UpdateStores(own, LastSnapshot(inputs), EventsSince(inputs));
  }
}
