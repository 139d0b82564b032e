/**
  Subnet leases and the lease watcher, which turns incremental events and full
  snapshots into Added/Removed batches.
 */
module Lease {
  import opened Base
  import opened IpNet

  datatype EventType = Added | Removed

  datatype LeaseAttrs = LeaseAttrs(
    publicIp: nat,
    publicIpv6: Option<nat>,
    backendType: string,
    backendData: Option<string>,
    backendV6Data: Option<string>)

  datatype Lease = Lease(
    enableIpv4: bool,
    enableIpv6: bool,
    subnet: Net,
    ipv6Subnet: Net,
    attrs: LeaseAttrs,
    expiration: int,
    asof: int)

  datatype Event = Event(kind: EventType, lease: Lease)

  /** The subnets of two leases agree under the given family flags. */
  predicate SameSubnet(ipv4: bool, ipv6: bool, first: Lease, second: Lease) {
    || (ipv4 && !ipv6 && first.subnet == second.subnet)
    || (!ipv4 && ipv6 && first.ipv6Subnet == second.ipv6Subnet)
    || (ipv4 && ipv6 && first.subnet == second.subnet && first.ipv6Subnet == second.ipv6Subnet)
    || (!ipv4 && !ipv6 && first.subnet == second.subnet)
  }

  /** Set membership: flags are those of the stored lease. */
  predicate Matches(stored: Lease, l: Lease) {
    SameSubnet(stored.enableIpv4, stored.enableIpv6, stored, l)
  }

  /** Own-lease comparison: flags are those of the incoming lease. */
  predicate IsOwn(own: Lease, l: Lease) {
    SameSubnet(l.enableIpv4, l.enableIpv6, own, l)
  }

  /** Index of the first stored lease that matches `l`, or the length of the list. */
  function FindMatch(ls: seq<Lease>, l: Lease): (i: nat)
    ensures i <= |ls|
    ensures i < |ls| ==> Matches(ls[i], l)
    ensures forall j :: 0 <= j < i ==> !Matches(ls[j], l)
  {
    FirstIndex(ls, x => Matches(x, l))
  }

  lemma {:induction false} FindMatchUnique(ls: seq<Lease>, l: Lease, i: nat)
    requires i <= |ls| && (i < |ls| ==> Matches(ls[i], l))
    requires forall j :: 0 <= j < i ==> !Matches(ls[j], l)
    ensures FindMatch(ls, l) == i
  {
    var k := FindMatch(ls, l);
    assert k < i || i < k || k == i;
  }

  // ----- what the watcher computes -----

  datatype Outcome = Outcome(leases: seq<Lease>, batch: seq<Event>)

  function AddTo(ls: seq<Lease>, l: Lease): seq<Lease> {
    var i := FindMatch(ls, l);
    if i < |ls| then ls[i := l] else ls + [l]
  }

  function RemoveFrom(ls: seq<Lease>, l: Lease): seq<Lease> {
    var i := FindMatch(ls, l);
    if i < |ls| then ls[..i] + ls[i + 1..] else ls
  }

  /** The lease reported by a removal: the stored one if there is one, else the one passed in. */
  function RemovedLease(ls: seq<Lease>, l: Lease): Lease {
    var i := FindMatch(ls, l);
    if i < |ls| then ls[i] else l
  }

  function UpdateOne(own: Lease, o: Outcome, e: Event): Outcome {
    if IsOwn(own, e.lease) then o
    else match e.kind
      case Added => Outcome(AddTo(o.leases, e.lease), o.batch + [e])
      case Removed =>
        Outcome(RemoveFrom(o.leases, e.lease), o.batch + [Event(Removed, RemovedLease(o.leases, e.lease))])
  }

  function UpdateAll(own: Lease, ls: seq<Lease>, events: seq<Event>): Outcome {
    if events == [] then Outcome(ls, [])
    else UpdateOne(own, UpdateAll(own, ls, events[..|events| - 1]), events[|events| - 1])
  }

  function ScanOne(own: Lease, o: Outcome, nl: Lease): Outcome {
    if IsOwn(own, nl) then o
    else if FindMatch(o.leases, nl) < |o.leases| then Outcome(RemoveFrom(o.leases, nl), o.batch)
    else Outcome(o.leases, o.batch + [Event(Added, nl)])
  }

  /** First loop of a reset: the stored leases that stay unmatched, and the Added events. */
  function ScanSnapshot(own: Lease, ls: seq<Lease>, snapshot: seq<Lease>): Outcome {
    if snapshot == [] then Outcome(ls, [])
    else ScanOne(own, ScanSnapshot(own, ls, snapshot[..|snapshot| - 1]), snapshot[|snapshot| - 1])
  }

  function RemovedEvents(ls: seq<Lease>): (b: seq<Event>)
    ensures |b| == |ls| && forall i :: 0 <= i < |b| ==> b[i] == Event(Removed, ls[i])
  {
    seq(|ls|, i requires 0 <= i < |ls| => Event(Removed, ls[i]))
  }

  function ResetAll(own: Lease, ls: seq<Lease>, snapshot: seq<Lease>): Outcome {
    var scan := ScanSnapshot(own, ls, snapshot);
    Outcome(snapshot, scan.batch + RemovedEvents(scan.leases))
  }

  /** The local lease and the leases of the other nodes. */
  class LeaseWatcher {
    var ownLease: Option<Lease>
    var leases: seq<Lease>

    constructor (own: Lease)
      ensures ownLease == Some(own) && leases == []
    {
      ownLease, leases := Some(own), [];
    }

    /** Without an own lease the source panics. */
    method Reset(snapshot: seq<Lease>) returns (batch: seq<Event>)
      requires ownLease.Some?
      modifies this`leases
      ensures Outcome(leases, batch) == ResetAll(ownLease.value, old(leases), snapshot)
    {
      var own := ownLease.value;
      batch := [];
      for n := 0 to |snapshot|
        invariant Outcome(leases, batch) == ScanSnapshot(own, old(leases), snapshot[..n])
      {
        assert snapshot[..n + 1][..n] == snapshot[..n];
        var nl := snapshot[n];
        if IsOwn(own, nl) {
          continue;
        }
        var found, i := false, 0;
        while i < |leases|
          invariant i <= |leases| && leases == ScanSnapshot(own, old(leases), snapshot[..n]).leases
          invariant !found && forall j :: 0 <= j < i ==> !Matches(leases[j], nl)
        {
          if Matches(leases[i], nl) {
            FindMatchUnique(leases, nl, i);
            leases := leases[..i] + leases[i + 1..];
            found := true;
            break;
          }
          i := i + 1;
        }
        if !found {
          FindMatchUnique(leases, nl, i);
          batch := batch + [Event(Added, nl)];
        }
      }
      assert snapshot[..|snapshot|] == snapshot;
      ghost var added := batch;
      for i := 0 to |leases|
        invariant batch == added + RemovedEvents(leases[..i])
      {
        assert RemovedEvents(leases[..i + 1]) == RemovedEvents(leases[..i]) + [Event(Removed, leases[i])];
        batch := batch + [Event(Removed, leases[i])];
      }
      assert leases[..|leases|] == leases;
      leases := snapshot;
    }

    method Update(events: seq<Event>) returns (batch: seq<Event>)
      requires ownLease.Some?
      modifies this`leases
      ensures Outcome(leases, batch) == UpdateAll(ownLease.value, old(leases), events)
    {
      var own := ownLease.value;
      batch := [];
      for n := 0 to |events|
        invariant Outcome(leases, batch) == UpdateAll(own, old(leases), events[..n])
      {
        assert events[..n + 1][..n] == events[..n];
        if IsOwn(own, events[n].lease) {
          continue;
        }
        var e;
        match events[n].kind {
          case Added => e := Add(events[n].lease);
          case Removed => e := Remove(events[n].lease);
        }
        batch := batch + [e];
      }
      assert events[..|events|] == events;
    }

    method Add(lease: Lease) returns (e: Event)
      modifies this`leases
      ensures leases == AddTo(old(leases), lease) && e == Event(Added, lease)
    {
      for i := 0 to |leases|
        invariant leases == old(leases)
        invariant forall j :: 0 <= j < i ==> !Matches(leases[j], lease)
      {
        if Matches(leases[i], lease) {
          FindMatchUnique(leases, lease, i);
          leases := leases[i := lease];
          return Event(Added, leases[i]);
        }
      }
      FindMatchUnique(leases, lease, |leases|);
      leases := leases + [lease];
      e := Event(Added, leases[|leases| - 1]);
    }

    method Remove(lease: Lease) returns (e: Event)
      modifies this`leases
      ensures leases == RemoveFrom(old(leases), lease)
      ensures e == Event(Removed, RemovedLease(old(leases), lease))
    {
      for i := 0 to |leases|
        invariant leases == old(leases)
        invariant forall j :: 0 <= j < i ==> !Matches(leases[j], lease)
      {
        if Matches(leases[i], lease) {
          FindMatchUnique(leases, lease, i);
          var l := leases[i];
          leases := leases[..i] + leases[i + 1..];
          return Event(Removed, l);
        }
      }
      FindMatchUnique(leases, lease, |leases|);
      e := Event(Removed, lease);
    }
  }
}
