/**
  What the emitted events mean: over every run of updates and resets, folding
  the emitted batches into a map of subnets mirrors the stored leases of the
  other nodes.

  The fold keeps, per subnet, an image `img` of the lease.  With a constant
  image the map is a set of subnets; with the route of a lease it is a routing
  table.
 */
module LeaseRuns {
  import opened Base
  import opened IpNet
  import opened Lease

  /** The part of a lease that identifies its subnet under its own family flags. */
  datatype Key = Key(v4: Option<Net>, v6: Option<Net>)

  function KeyOf(l: Lease): Key {
    if l.enableIpv6 then
      Key(if l.enableIpv4 then Some(l.subnet) else None, Some(l.ipv6Subnet))
    else
      Key(Some(l.subnet), None)
  }

  predicate SameFlags(a: Lease, b: Lease) {
    a.enableIpv4 == b.enableIpv4 && a.enableIpv6 == b.enableIpv6
  }

  ghost predicate Uniform(own: Lease, ls: seq<Lease>) {
    forall l :: l in ls ==> SameFlags(own, l)
  }

  ghost predicate UniformEvents(own: Lease, es: seq<Event>) {
    forall e :: e in es ==> SameFlags(own, e.lease)
  }

  ghost predicate NoDup(ls: seq<Lease>) {
    forall i, j :: 0 <= i < j < |ls| ==> KeyOf(ls[i]) != KeyOf(ls[j])
  }

  ghost function PeerKeys(own: Lease, ls: seq<Lease>): set<Key> {
    set l | l in ls && KeyOf(l) != KeyOf(own) :: KeyOf(l)
  }

  /** With uniform flags both comparisons of the watcher are equality of keys. */
  lemma MatchIsKeyEquality(own: Lease, a: Lease, b: Lease)
    requires SameFlags(own, a) && SameFlags(own, b)
    ensures Matches(a, b) <==> KeyOf(a) == KeyOf(b)
    ensures IsOwn(a, b) <==> KeyOf(a) == KeyOf(b)
  {
  }

  // ----- folding events -----

  function Apply<T>(img: Lease -> T, m: map<Key, T>, e: Event): map<Key, T> {
    match e.kind
    case Added => m[KeyOf(e.lease) := img(e.lease)]
    case Removed => m - {KeyOf(e.lease)}
  }

  function ApplyAll<T>(img: Lease -> T, m: map<Key, T>, batch: seq<Event>): map<Key, T> {
    if batch == [] then m
    else Apply(img, ApplyAll(img, m, batch[..|batch| - 1]), batch[|batch| - 1])
  }

  lemma {:induction false} ApplyAllConcat<T>(img: Lease -> T, m: map<Key, T>, a: seq<Event>, b: seq<Event>)
    ensures ApplyAll(img, m, a + b) == ApplyAll(img, ApplyAll(img, m, a), b)
  {
    if b == [] {
      assert a + b == a;
    } else {
      ApplyAllConcat(img, m, a, b[..|b| - 1]);
      assert (a + b)[..|a + b| - 1] == a + b[..|b| - 1];
    }
  }

  /** A removal names the image that the map holds for its subnet, if it holds one. */
  predicate Consistent<T(==)>(img: Lease -> T, m: map<Key, T>, batch: seq<Event>) {
    batch == [] ||
    (var n, k := |batch| - 1, KeyOf(batch[|batch| - 1].lease);
     var m' := ApplyAll(img, m, batch[..n]);
     && Consistent(img, m, batch[..n])
     && (batch[n].kind == Removed && k in m' ==> m'[k] == img(batch[n].lease)))
  }

  lemma {:induction false} ConsistentConcat<T>(img: Lease -> T, m: map<Key, T>, a: seq<Event>, b: seq<Event>)
    requires Consistent(img, m, a) && Consistent(img, ApplyAll(img, m, a), b)
    ensures Consistent(img, m, a + b)
  {
    if b == [] {
      assert a + b == a;
    } else {
      ConsistentConcat(img, m, a, b[..|b| - 1]);
      ApplyAllConcat(img, m, a, b[..|b| - 1]);
      assert (a + b)[..|a + b| - 1] == a + b[..|b| - 1];
    }
  }

  /** `m` holds exactly the images of the stored leases of other nodes. */
  ghost predicate Mirrors<T>(own: Lease, ls: seq<Lease>, img: Lease -> T, m: map<Key, T>) {
    && m.Keys == PeerKeys(own, ls)
    && forall l :: l in ls && KeyOf(l) != KeyOf(own) ==> m[KeyOf(l)] == img(l)
  }

  // ----- the list operations on duplicate-free lists -----

  lemma {:induction false} FindMatchByKey(own: Lease, ls: seq<Lease>, l: Lease)
    requires Uniform(own, ls) && SameFlags(own, l)
    ensures var i := FindMatch(ls, l);
      if i < |ls| then ls[i] in ls && KeyOf(ls[i]) == KeyOf(l)
      else forall x :: x in ls ==> KeyOf(x) != KeyOf(l)
  {
    var i := FindMatch(ls, l);
    forall j | 0 <= j < |ls|
      ensures Matches(ls[j], l) <==> KeyOf(ls[j]) == KeyOf(l)
    {
      assert ls[j] in ls;
      MatchIsKeyEquality(own, ls[j], l);
    }
  }

  lemma WithoutIndex(ls: seq<Lease>, i: nat)
    requires NoDup(ls) && i < |ls|
    ensures NoDup(ls[..i] + ls[i + 1..])
    ensures forall x :: x in ls[..i] + ls[i + 1..] <==> x in ls && KeyOf(x) != KeyOf(ls[i])
  {
    var r := ls[..i] + ls[i + 1..];
    assert forall k :: 0 <= k < |r| ==> r[k] == ls[if k < i then k else k + 1];
    forall x | x in ls && KeyOf(x) != KeyOf(ls[i])
      ensures x in r
    {
      var j :| 0 <= j < |ls| && ls[j] == x;
      assert x == r[if j < i then j else j - 1];
    }
  }

  lemma RemoveFromMembers(own: Lease, ls: seq<Lease>, l: Lease)
    requires Uniform(own, ls) && SameFlags(own, l) && NoDup(ls)
    ensures NoDup(RemoveFrom(ls, l)) && Uniform(own, RemoveFrom(ls, l))
    ensures forall x :: x in RemoveFrom(ls, l) <==> x in ls && KeyOf(x) != KeyOf(l)
    ensures KeyOf(RemovedLease(ls, l)) == KeyOf(l)
  {
    hide NoDup;
    FindMatchByKey(own, ls, l);
    if FindMatch(ls, l) < |ls| {
      WithoutIndex(ls, FindMatch(ls, l));
    }
  }

  lemma AddToMembers(own: Lease, ls: seq<Lease>, l: Lease)
    requires Uniform(own, ls) && SameFlags(own, l) && NoDup(ls)
    ensures NoDup(AddTo(ls, l)) && Uniform(own, AddTo(ls, l))
    ensures forall x :: x in AddTo(ls, l) <==> x == l || (x in ls && KeyOf(x) != KeyOf(l))
  {
    var i, r := FindMatch(ls, l), AddTo(ls, l);
    FindMatchByKey(own, ls, l);
    assert r[if i < |ls| then i else |ls|] == l;
    forall x | x in ls && KeyOf(x) != KeyOf(l)
      ensures x in r
    {
      var j :| 0 <= j < |ls| && ls[j] == x;
      assert r[j] == x;
    }
  }

  // ----- updates -----

  lemma {:induction false} UpdateOneMirrors<T>(own: Lease, o: Outcome, e: Event, img: Lease -> T, m: map<Key, T>)
    requires Uniform(own, o.leases) && NoDup(o.leases) && SameFlags(own, e.lease)
    requires Mirrors(own, o.leases, img, m)
    ensures var o' := UpdateOne(own, o, e);
      && NoDup(o'.leases) && Uniform(own, o'.leases)
      && o'.batch == o.batch + o'.batch[|o.batch|..]
      && Mirrors(own, o'.leases, img, ApplyAll(img, m, o'.batch[|o.batch|..]))
      && Consistent(img, m, o'.batch[|o.batch|..])
      && forall x :: x in o'.batch[|o.batch|..] ==> KeyOf(x.lease) != KeyOf(own) && x.kind == e.kind
  {
    MatchIsKeyEquality(own, own, e.lease);
    if !IsOwn(own, e.lease) {
      var o' := UpdateOne(own, o, e);
      if e.kind == Added {
        AddToMembers(own, o.leases, e.lease);
        assert o'.batch[|o.batch|..] == [e];
        assert [e][..0] == [];
        assert ApplyAll(img, m, [e]) == Apply(img, m, e);
      } else {
        RemoveFromMembers(own, o.leases, e.lease);
        var r := Event(Removed, RemovedLease(o.leases, e.lease));
        assert o'.batch[|o.batch|..] == [r];
        assert [r][..0] == [];
        assert ApplyAll(img, m, [r]) == Apply(img, m, r);
      }
    }
  }

  /** An update keeps the mirror, and never emits the own subnet. */
  lemma {:induction false} UpdateMirrors<T>(
    own: Lease, ls: seq<Lease>, events: seq<Event>, img: Lease -> T, m: map<Key, T>)
    requires Uniform(own, ls) && NoDup(ls) && UniformEvents(own, events)
    requires Mirrors(own, ls, img, m)
    ensures var o := UpdateAll(own, ls, events);
      && NoDup(o.leases) && Uniform(own, o.leases)
      && Mirrors(own, o.leases, img, ApplyAll(img, m, o.batch))
      && Consistent(img, m, o.batch)
      && forall x :: x in o.batch ==> KeyOf(x.lease) != KeyOf(own)
  {
    if events == [] {
    } else {
      var n := |events| - 1;
      var o := UpdateAll(own, ls, events[..n]);
      UpdateMirrors(own, ls, events[..n], img, m);
      assert events[n] in events;
      UpdateOneMirrors(own, o, events[n], img, ApplyAll(img, m, o.batch));
      var o' := UpdateOne(own, o, events[n]);
      ApplyAllConcat(img, m, o.batch, o'.batch[|o.batch|..]);
      ConsistentConcat(img, m, o.batch, o'.batch[|o.batch|..]);
    }
  }

  // ----- resets -----

  ghost function Keys(ls: seq<Lease>): set<Key> {
    set l | l in ls :: KeyOf(l)
  }

  /** After scanning `snapshot`: which stored leases stay unmatched, and what the Added events do to the map. */
  ghost predicate Scanned<T>(
    own: Lease, ls: seq<Lease>, snapshot: seq<Lease>, img: Lease -> T, m: map<Key, T>, rest: seq<Lease>,
    m': map<Key, T>) {
    && NoDup(rest) && Uniform(own, rest)
    && (forall x :: x in rest <==> x in ls && (KeyOf(x) == KeyOf(own) || KeyOf(x) !in PeerKeys(own, snapshot)))
    && m'.Keys == m.Keys + PeerKeys(own, snapshot)
    && (forall k :: k in m ==> m'[k] == m[k])
    && (forall l :: l in snapshot && KeyOf(l) != KeyOf(own) && KeyOf(l) !in m ==> m'[KeyOf(l)] == img(l))
  }

  lemma {:induction false} ScanMirrors<T>(
    own: Lease, ls: seq<Lease>, snapshot: seq<Lease>, img: Lease -> T, m: map<Key, T>)
    requires Uniform(own, ls) && NoDup(ls) && Uniform(own, snapshot) && NoDup(snapshot)
    requires m.Keys == PeerKeys(own, ls)
    ensures var o := ScanSnapshot(own, ls, snapshot);
      && Scanned(own, ls, snapshot, img, m, o.leases, ApplyAll(img, m, o.batch))
      && forall e :: e in o.batch ==> e.kind == Added && KeyOf(e.lease) != KeyOf(own)
  {
    hide Scanned, ScanOne, FindMatch, IsOwn, NoDup, Uniform, PeerKeys;
    if snapshot == [] {
      NothingScanned(own, ls, img, m);
    } else {
      var n := |snapshot| - 1;
      var p, nl := snapshot[..n], snapshot[n];
      assert snapshot == p + [nl];
      ProperPrefix(own, p, nl);
      ScanMirrors(own, ls, p, img, m);
      var o := ScanSnapshot(own, ls, p);
      ScanOneMirrors(own, ls, p, nl, o, img, m, ApplyAll(img, m, o.batch));
      if ScanOne(own, o, nl).batch != o.batch {
        ApplyAllConcat(img, m, o.batch, [Event(Added, nl)]);
        ApplyOne(img, ApplyAll(img, m, o.batch), Event(Added, nl));
      }
    }
  }

  lemma {:induction false} ApplyOne<T>(img: Lease -> T, m: map<Key, T>, e: Event)
    ensures ApplyAll(img, m, [e]) == Apply(img, m, e)
  {
    assert [e][..0] == [];
  }

  lemma NothingScanned<T>(own: Lease, ls: seq<Lease>, img: Lease -> T, m: map<Key, T>)
    requires Uniform(own, ls) && NoDup(ls)
    ensures Scanned(own, ls, [], img, m, ls, m)
  {
    assert PeerKeys(own, []) == {};
  }

  lemma ProperPrefix(own: Lease, p: seq<Lease>, nl: Lease)
    requires Uniform(own, p + [nl]) && NoDup(p + [nl])
    ensures Uniform(own, p) && NoDup(p) && SameFlags(own, nl)
  {
    var q := p + [nl];
    assert q[|p|] == nl;
    assert forall i :: 0 <= i < |p| ==> q[i] == p[i];
    assert forall l :: l in p ==> l in q;
  }

  lemma ScanOneMirrors<T>(
    own: Lease, ls: seq<Lease>, p: seq<Lease>, nl: Lease, o: Outcome, img: Lease -> T, m: map<Key, T>,
    m': map<Key, T>)
    requires Uniform(own, ls) && NoDup(ls) && SameFlags(own, nl) && NoDup(p + [nl])
    requires m.Keys == PeerKeys(own, ls)
    requires Scanned(own, ls, p, img, m, o.leases, m')
    ensures var o' := ScanOne(own, o, nl);
      if o'.batch == o.batch then Scanned(own, ls, p + [nl], img, m, o'.leases, m')
      else
        (&& o'.batch == o.batch + [Event(Added, nl)] && KeyOf(nl) != KeyOf(own)
         && Scanned(own, ls, p + [nl], img, m, o'.leases, Apply(img, m', Event(Added, nl))))
  {
    MatchIsKeyEquality(own, own, nl);
    FindMatchByKey(own, o.leases, nl);
    RemoveFromMembers(own, o.leases, nl);
    PeerKeysStep(own, p, nl);
    hide FindMatch, RemoveFrom, NoDup, Uniform, PeerKeys, IsOwn;
    if IsOwn(own, nl) {
      ScannedOwn(own, ls, p, nl, img, m, o.leases, m');
    } else if FindMatch(o.leases, nl) < |o.leases| {
      var x :| x in o.leases && KeyOf(x) == KeyOf(nl);
      PeerKeysMember(own, ls, x);
      ScannedMatch(own, ls, p, nl, img, m, o.leases, m', RemoveFrom(o.leases, nl));
    } else {
      PeerKeysAbsent(own, ls, o.leases, p, nl);
      ScannedNew(own, ls, p, nl, img, m, o.leases, m');
      assert o.batch + [Event(Added, nl)] != o.batch;
    }
    hide Scanned;
  }

  lemma ScannedOwn<T>(
    own: Lease, ls: seq<Lease>, p: seq<Lease>, nl: Lease, img: Lease -> T, m: map<Key, T>, rest: seq<Lease>,
    m': map<Key, T>)
    requires Scanned(own, ls, p, img, m, rest, m') && NoDup(p + [nl]) && KeyOf(nl) == KeyOf(own)
    ensures Scanned(own, ls, p + [nl], img, m, rest, m')
  {
    PeerKeysStep(own, p, nl);
    hide NoDup, Uniform, PeerKeys;
    assert forall l :: l in p + [nl] && KeyOf(l) != KeyOf(own) ==> l in p;
  }

  lemma ScannedMatch<T>(
    own: Lease, ls: seq<Lease>, p: seq<Lease>, nl: Lease, img: Lease -> T, m: map<Key, T>, rest: seq<Lease>,
    m': map<Key, T>, rest': seq<Lease>)
    requires Scanned(own, ls, p, img, m, rest, m') && NoDup(p + [nl]) && KeyOf(nl) != KeyOf(own) && KeyOf(nl) in m
    requires NoDup(rest') && Uniform(own, rest') && forall x :: x in rest' <==> x in rest && KeyOf(x) != KeyOf(nl)
    ensures Scanned(own, ls, p + [nl], img, m, rest', m')
  {
    PeerKeysStep(own, p, nl);
    hide NoDup, Uniform, PeerKeys;
    assert forall l :: l in p + [nl] <==> l in p || l == nl;
  }

  lemma ScannedNew<T>(
    own: Lease, ls: seq<Lease>, p: seq<Lease>, nl: Lease, img: Lease -> T, m: map<Key, T>, rest: seq<Lease>,
    m': map<Key, T>)
    requires Scanned(own, ls, p, img, m, rest, m') && NoDup(p + [nl]) && KeyOf(nl) != KeyOf(own) && KeyOf(nl) !in m
    requires forall x :: x in rest ==> KeyOf(x) != KeyOf(nl)
    ensures Scanned(own, ls, p + [nl], img, m, rest, m'[KeyOf(nl) := img(nl)])
  {
    PeerKeysStep(own, p, nl);
    hide NoDup, Uniform, PeerKeys;
    assert forall l :: l in p + [nl] <==> l in p || l == nl;
  }

  lemma PeerKeysMember(own: Lease, ls: seq<Lease>, x: Lease)
    requires x in ls && KeyOf(x) != KeyOf(own)
    ensures KeyOf(x) in PeerKeys(own, ls)
  {
  }

  /** A peer that no unmatched lease has the subnet of, and that was not scanned before, is not stored. */
  lemma PeerKeysAbsent(own: Lease, ls: seq<Lease>, rest: seq<Lease>, p: seq<Lease>, nl: Lease)
    requires forall x :: x in ls && KeyOf(x) !in PeerKeys(own, p) ==> x in rest
    requires forall x :: x in rest ==> KeyOf(x) != KeyOf(nl)
    requires KeyOf(nl) !in PeerKeys(own, p)
    ensures KeyOf(nl) !in PeerKeys(own, ls)
  {
  }

  lemma PeerKeysStep(own: Lease, p: seq<Lease>, nl: Lease)
    requires NoDup(p + [nl])
    ensures PeerKeys(own, p + [nl]) == PeerKeys(own, p) + (if KeyOf(nl) == KeyOf(own) then {} else {KeyOf(nl)})
    ensures forall l :: l in p ==> KeyOf(l) != KeyOf(nl)
    ensures KeyOf(nl) !in PeerKeys(own, p)
  {
    var q := p + [nl];
    assert forall l :: l in q <==> l in p || l == nl;
    forall l | l in p
      ensures KeyOf(l) != KeyOf(nl)
    {
      var j :| 0 <= j < |p| && p[j] == l;
      assert q[j] == l && q[|p|] == nl;
    }
  }

  lemma {:induction false} ApplyRemoved<T>(img: Lease -> T, m: map<Key, T>, ls: seq<Lease>)
    ensures ApplyAll(img, m, RemovedEvents(ls)) == m - Keys(ls)
  {
    if ls == [] {
    } else {
      var n := |ls| - 1;
      ApplyRemoved(img, m, ls[..n]);
      assert RemovedEvents(ls)[..n] == RemovedEvents(ls[..n]);
      assert Keys(ls) == Keys(ls[..n]) + {KeyOf(ls[n])} by {
        assert ls == ls[..n] + [ls[n]];
      }
    }
  }

  lemma {:induction false} AddedConsistent<T>(img: Lease -> T, m: map<Key, T>, batch: seq<Event>)
    requires forall e :: e in batch ==> e.kind == Added
    ensures Consistent(img, m, batch)
  {
    if batch == [] {
    } else {
      AddedConsistent(img, m, batch[..|batch| - 1]);
      assert batch[|batch| - 1] in batch;
    }
  }

  lemma {:induction false} RemovedConsistent<T>(img: Lease -> T, m: map<Key, T>, ls: seq<Lease>)
    requires NoDup(ls)
    requires forall l :: l in ls && KeyOf(l) in m ==> m[KeyOf(l)] == img(l)
    ensures Consistent(img, m, RemovedEvents(ls))
  {
    if ls == [] {
    } else {
      var n := |ls| - 1;
      RemovedConsistent(img, m, ls[..n]);
      ApplyRemoved(img, m, ls[..n]);
      assert RemovedEvents(ls)[..n] == RemovedEvents(ls[..n]);
      assert ls[n] in ls;
    }
  }

  /** No subnet that stays stored changes its image across the reset. */
  ghost predicate Quiet<T>(own: Lease, ls: seq<Lease>, snapshot: seq<Lease>, img: Lease -> T) {
    forall ol, nl :: ol in ls && nl in snapshot && KeyOf(ol) == KeyOf(nl) != KeyOf(own) ==> img(ol) == img(nl)
  }

  /**
    After a reset the map has exactly the subnets of the snapshot.  Their images
    are right if and only if the reset is quiet: a lease that stays stored is
    replaced in the list without an event.
   */
  lemma {:induction false} ResetMirrors<T>(
    own: Lease, ls: seq<Lease>, snapshot: seq<Lease>, img: Lease -> T, m: map<Key, T>)
    requires Uniform(own, ls) && NoDup(ls) && Uniform(own, snapshot) && NoDup(snapshot)
    requires Mirrors(own, ls, img, m)
    ensures var m' := ApplyAll(img, m, ResetAll(own, ls, snapshot).batch);
      && m'.Keys == PeerKeys(own, snapshot)
      && (Mirrors(own, snapshot, img, m') <==> Quiet(own, ls, snapshot, img))
      && Consistent(img, m, ResetAll(own, ls, snapshot).batch)
      && forall e :: e in ResetAll(own, ls, snapshot).batch && e.kind == Added ==> KeyOf(e.lease) != KeyOf(own)
  {
    var scan := ScanSnapshot(own, ls, snapshot);
    ScanMirrors(own, ls, snapshot, img, m);
    var m1 := ApplyAll(img, m, scan.batch);
    ApplyAllConcat(img, m, scan.batch, RemovedEvents(scan.leases));
    ApplyRemoved(img, m1, scan.leases);
    var m' := m1 - Keys(scan.leases);
    AddedConsistent(img, m, scan.batch);
    RemovedConsistent(img, m1, scan.leases);
    ConsistentConcat(img, m, scan.batch, RemovedEvents(scan.leases));
    assert m'.Keys == PeerKeys(own, snapshot) by {
      forall k
        ensures k in m' <==> k in PeerKeys(own, snapshot)
      {
        if k in m1 && k !in PeerKeys(own, snapshot) {
          assert k in PeerKeys(own, ls);
        }
      }
    }
    if Mirrors(own, snapshot, img, m') {
      forall ol, nl | ol in ls && nl in snapshot && KeyOf(ol) == KeyOf(nl) != KeyOf(own)
        ensures img(ol) == img(nl)
      {
        assert KeyOf(ol) in m && m'[KeyOf(nl)] == m1[KeyOf(ol)] == m[KeyOf(ol)] == img(ol);
      }
    }
    if Quiet(own, ls, snapshot, img) {
      forall l | l in snapshot && KeyOf(l) != KeyOf(own)
        ensures m'[KeyOf(l)] == img(l)
      {
        if KeyOf(l) in m {
          var ol :| ol in ls && KeyOf(ol) == KeyOf(l);
        }
      }
    }
  }

  lemma RemovedMembers(ls: seq<Lease>)
    ensures forall e :: e in RemovedEvents(ls) <==> e.kind == Removed && e.lease in ls
  {
    forall e: Event | e.kind == Removed && e.lease in ls
      ensures e in RemovedEvents(ls)
    {
      var i :| 0 <= i < |ls| && ls[i] == e.lease;
      assert RemovedEvents(ls)[i] == e;
    }
  }

  /**
    A reset emits an event for the own subnet if and only if the own subnet was
    stored, whatever the new snapshot holds; the event is a removal.  The own
    subnet gets stored by an earlier snapshot that lists it.
   */
  lemma ResetEmitsOwn(own: Lease, ls: seq<Lease>, snapshot: seq<Lease>)
    requires Uniform(own, ls) && NoDup(ls) && Uniform(own, snapshot) && NoDup(snapshot)
    ensures (exists e :: e in ResetAll(own, ls, snapshot).batch && KeyOf(e.lease) == KeyOf(own))
       <==> KeyOf(own) in Keys(ls)
    ensures forall e :: e in ResetAll(own, ls, snapshot).batch && KeyOf(e.lease) == KeyOf(own) ==> e.kind == Removed
  {
    var m: map<Key, ()> := map k | k in PeerKeys(own, ls) :: ();
    var scan := ScanSnapshot(own, ls, snapshot);
    ScanMirrors(own, ls, snapshot, _ => (), m);
    assert forall x :: x in scan.leases && KeyOf(x) == KeyOf(own) <==> x in ls && KeyOf(x) == KeyOf(own);
    hide Scanned, ScanSnapshot, ApplyAll;
    RemovedMembers(scan.leases);
    if KeyOf(own) in Keys(ls) {
      var l :| l in ls && KeyOf(l) == KeyOf(own);
      assert Event(Removed, l) in RemovedEvents(scan.leases);
    }
  }

  // ----- runs -----

  datatype Input = Update(events: seq<Event>) | Reset(snapshot: seq<Lease>)

  function StepRun(own: Lease, ls: seq<Lease>, i: Input): Outcome {
    match i
    case Update(events) => UpdateAll(own, ls, events)
    case Reset(snapshot) => ResetAll(own, ls, snapshot)
  }

  /** Stored leases, and all events emitted, after a run that starts with no stored leases. */
  function Run(own: Lease, inputs: seq<Input>): Outcome {
    if inputs == [] then Outcome([], [])
    else
      var p := Run(own, inputs[..|inputs| - 1]);
      var q := StepRun(own, p.leases, inputs[|inputs| - 1]);
      Outcome(q.leases, p.batch + q.batch)
  }

  /** Leases carry the flags of the own lease; snapshots list no subnet twice. */
  ghost predicate Proper(own: Lease, i: Input) {
    match i
    case Update(events) => UniformEvents(own, events)
    case Reset(snapshot) => Uniform(own, snapshot) && NoDup(snapshot)
  }

  ghost predicate ProperRun(own: Lease, inputs: seq<Input>) {
    forall i :: 0 <= i < |inputs| ==> Proper(own, inputs[i])
  }

  /** Every reset of the run is quiet with respect to the leases stored at that point. */
  ghost predicate QuietRun<T>(own: Lease, inputs: seq<Input>, img: Lease -> T) {
    forall i :: 0 <= i < |inputs| && inputs[i].Reset? ==>
      Quiet(own, Run(own, inputs[..i]).leases, inputs[i].snapshot, img)
  }

  /** Over every proper run whose resets are quiet, the folded events are the images of the stored peer leases. */
  lemma {:induction false} RunMirrors<T>(own: Lease, inputs: seq<Input>, img: Lease -> T)
    requires ProperRun(own, inputs) && QuietRun(own, inputs, img)
    ensures var o := Run(own, inputs);
      && NoDup(o.leases) && Uniform(own, o.leases)
      && Mirrors(own, o.leases, img, ApplyAll(img, map[], o.batch))
      && Consistent(img, map[], o.batch)
      && forall e :: e in o.batch && e.kind == Added ==> KeyOf(e.lease) != KeyOf(own)
  {
    if inputs == [] {
    } else {
      var n := |inputs| - 1;
      var p := Run(own, inputs[..n]);
      assert QuietRun(own, inputs[..n], img) by {
        forall i | 0 <= i < n && inputs[..n][i].Reset?
          ensures Quiet(own, Run(own, inputs[..n][..i]).leases, inputs[..n][i].snapshot, img)
        {
          assert inputs[..n][..i] == inputs[..i];
        }
      }
      RunMirrors(own, inputs[..n], img);
      var m := ApplyAll(img, map[], p.batch);
      assert Proper(own, inputs[n]);
      match inputs[n] {
        case Update(events) => UpdateMirrors(own, p.leases, events, img, m);
        case Reset(snapshot) => ResetMirrors(own, p.leases, snapshot, img, m);
      }
      ApplyAllConcat(img, map[], p.batch, StepRun(own, p.leases, inputs[n]).batch);
      ConsistentConcat(img, map[], p.batch, StepRun(own, p.leases, inputs[n]).batch);
    }
  }

  /**
    Over every proper run, with no condition on what resets change: the set of
    subnets obtained by folding the events is the set of stored subnets other
    than the own one, and the stored list holds no subnet twice.
   */
  lemma {:induction false} RunTracksSubnets(own: Lease, inputs: seq<Input>)
    requires ProperRun(own, inputs)
    ensures NoDup(Run(own, inputs).leases)
    ensures ApplyAll(_ => (), map[], Run(own, inputs).batch).Keys == PeerKeys(own, Run(own, inputs).leases)
  {
    RunMirrors(own, inputs, _ => ());
  }

  ghost predicate AllLeases(p: Lease -> bool, ls: seq<Lease>) {
    forall l :: l in ls ==> p(l)
  }

  ghost predicate AllEvents(p: Lease -> bool, es: seq<Event>) {
    forall e :: e in es ==> p(e.lease)
  }

  ghost predicate AllInput(p: Lease -> bool, i: Input) {
    match i
    case Update(events) => AllEvents(p, events)
    case Reset(snapshot) => AllLeases(p, snapshot)
  }

  lemma {:induction false} UpdateInvents(p: Lease -> bool, own: Lease, ls: seq<Lease>, events: seq<Event>)
    requires AllLeases(p, ls) && AllEvents(p, events)
    ensures AllLeases(p, UpdateAll(own, ls, events).leases) && AllEvents(p, UpdateAll(own, ls, events).batch)
  {
    if events == [] {
    } else {
      var n := |events| - 1;
      UpdateInvents(p, own, ls, events[..n]);
      assert events[n] in events;
    }
  }

  lemma {:induction false} ScanInvents(p: Lease -> bool, own: Lease, ls: seq<Lease>, snapshot: seq<Lease>)
    requires AllLeases(p, ls) && AllLeases(p, snapshot)
    ensures AllLeases(p, ScanSnapshot(own, ls, snapshot).leases) && AllEvents(p, ScanSnapshot(own, ls, snapshot).batch)
  {
    if snapshot == [] {
    } else {
      var n := |snapshot| - 1;
      ScanInvents(p, own, ls, snapshot[..n]);
      assert snapshot[n] in snapshot;
    }
  }

  /** Every stored or emitted lease came in with some event or snapshot of the run. */
  lemma {:induction false} RunInventsNothing(p: Lease -> bool, own: Lease, inputs: seq<Input>)
    requires forall i :: 0 <= i < |inputs| ==> AllInput(p, inputs[i])
    ensures AllLeases(p, Run(own, inputs).leases) && AllEvents(p, Run(own, inputs).batch)
  {
    if inputs == [] {
    } else {
      var n := |inputs| - 1;
      RunInventsNothing(p, own, inputs[..n]);
      var ls := Run(own, inputs[..n]).leases;
      assert AllInput(p, inputs[n]);
      match inputs[n] {
        case Update(events) => UpdateInvents(p, own, ls, events);
        case Reset(snapshot) => ScanInvents(p, own, ls, snapshot);
      }
    }
  }

  /** Whether the last snapshot of the run lists the own subnet. */
  ghost predicate LastSnapshotHasOwn(own: Lease, inputs: seq<Input>) {
    inputs != [] &&
    match inputs[|inputs| - 1]
    case Update(_) => LastSnapshotHasOwn(own, inputs[..|inputs| - 1])
    case Reset(snapshot) => KeyOf(own) in Keys(snapshot)
  }

  lemma {:induction false} UpdateKeepsOwn(own: Lease, ls: seq<Lease>, events: seq<Event>)
    requires Uniform(own, ls) && NoDup(ls) && UniformEvents(own, events)
    ensures KeyOf(own) in Keys(UpdateAll(own, ls, events).leases) <==> KeyOf(own) in Keys(ls)
  {
    if events == [] {
    } else {
      var n := |events| - 1;
      UpdateKeepsOwn(own, ls, events[..n]);
      var m: map<Key, ()> := map k | k in PeerKeys(own, ls) :: ();
      UpdateMirrors(own, ls, events[..n], _ => (), m);
      var o, l := UpdateAll(own, ls, events[..n]), events[n].lease;
      assert events[n] in events;
      MatchIsKeyEquality(own, own, l);
      AddToMembers(own, o.leases, l);
      RemoveFromMembers(own, o.leases, l);
    }
  }

  /** The own subnet is stored, and so removed by the next reset, exactly when the last snapshot listed it. */
  lemma {:induction false} OwnStored(own: Lease, inputs: seq<Input>)
    requires ProperRun(own, inputs)
    ensures KeyOf(own) in Keys(Run(own, inputs).leases) <==> LastSnapshotHasOwn(own, inputs)
  {
    if inputs == [] {
    } else {
      var n := |inputs| - 1;
      OwnStored(own, inputs[..n]);
      RunMirrors(own, inputs[..n], _ => ());
      assert Proper(own, inputs[n]);
      if inputs[n].Update? {
        UpdateKeepsOwn(own, Run(own, inputs[..n]).leases, inputs[n].events);
      }
    }
  }

  /**
    The stated intent is that every event of the own subnet is filtered out.
    Two snapshots that list the own lease are enough to see its removal emitted.
   */
  lemma {:induction false} OwnRemovalEmitted(own: Lease)
    ensures ProperRun(own, [Reset([own]), Reset([own])])
    ensures Run(own, [Reset([own]), Reset([own])]).batch == [Event(Removed, own)]
  {
    var r := Reset([own]);
    assert [own][..0] == [] && [r][..0] == [] && [r, r][..1] == [r];
    assert ScanSnapshot(own, [], [own]) == Outcome([], []);
    assert ScanSnapshot(own, [own], [own]) == Outcome([own], []);
    assert Run(own, []) == Outcome([], []);
    assert Run(own, [r]) == Outcome([own], []);
  }
}
