/**
  The long-term lease watch: sessions of the subnet manager feed watch results
  through one lease watcher, non-empty batches go to the receiver, and failed
  sessions are re-established after a growing delay.
 */
module SubnetWatch {
  import opened Base
  import opened Bits
  import opened Lease
  import opened LeaseRuns
  import opened LeaseEffects

  /** Events for an incremental update; without events, the snapshot is the current list. */
  datatype WatchResult = WatchResult(events: seq<Event>, snapshot: seq<Lease>)

  function ToInput(wr: WatchResult): Input {
    if wr.events != [] then Update(wr.events) else Reset(wr.snapshot)
  }

  function Inputs(rs: seq<WatchResult>): seq<Input> {
    if rs == [] then [] else Inputs(rs[..|rs| - 1]) + [ToInput(rs[|rs| - 1])]
  }

  /** The non-empty batches that a watcher without stored leases emits for `rs`, in order. */
  function Emitted(own: Lease, rs: seq<WatchResult>): seq<seq<Event>> {
    if rs == [] then []
    else
      var p := rs[..|rs| - 1];
      var b := StepRun(own, Run(own, Inputs(p)).leases, ToInput(rs[|rs| - 1])).batch;
      if b == [] then Emitted(own, p) else Emitted(own, p) + [b]
  }

  function Flatten<T>(ss: seq<seq<T>>): seq<T> {
    if ss == [] then [] else Flatten(ss[..|ss| - 1]) + ss[|ss| - 1]
  }

  // ----- the environment -----

  /** How a session ends: by cancellation, by its channel closing, or by its result. */
  datatype SessionEnd = Cancelled | ChannelClosed | Finished(ok: bool, cancelled: bool)

  /** What one watch session delivers while it runs, and what is left in its channel when it finishes. */
  datatype Session = Session(
    received: seq<seq<WatchResult>>,
    buffered: seq<seq<WatchResult>>,
    end: SessionEnd,
    cancelledInBackoff: bool)

  /** The whole watch ends with this session. */
  predicate Stops(s: Session) {
    s.end.Cancelled? || (s.end.Finished? && (s.end.ok || s.end.cancelled)) || s.cancelledInBackoff
  }

  function Results(s: Session): seq<WatchResult> {
    Flatten(s.received) + (if s.end.Finished? then Flatten(s.buffered) else [])
  }

  /** Results of all sessions up to and including the one that ends the watch. */
  function AllResults(ss: seq<Session>): seq<WatchResult> {
    if ss == [] then []
    else if Stops(ss[0]) then Results(ss[0])
    else Results(ss[0]) + AllResults(ss[1..])
  }

  /** The receiving end: it takes batches until it is dropped, after `limit` of them if there is a limit. */
  class Receiver {
    var sent: seq<seq<Event>>
    const limit: Option<nat>

    constructor (limit: Option<nat>)
      ensures sent == [] && this.limit == limit
    {
      sent, this.limit := [], limit;
    }

    predicate Full()
      reads this
    {
      limit.Some? && |sent| >= limit.value
    }

    ghost predicate Within()
      reads this
    {
      limit.Some? ==> |sent| <= limit.value
    }

    method Send(batch: seq<Event>) returns (ok: bool)
      requires Within()
      modifies this
      ensures Within()
      ensures ok == !old(Full())
      ensures sent == if ok then old(sent) + [batch] else old(sent)
    {
      ok := !Full();
      if ok {
        sent := sent + [batch];
      }
    }
  }

  // ----- the watch -----

  method Reduce(lw: LeaseWatcher, wr: WatchResult) returns (batch: seq<Event>)
    requires lw.ownLease.Some?
    modifies lw`leases
    ensures Outcome(lw.leases, batch) == StepRun(lw.ownLease.value, old(lw.leases), ToInput(wr))
  {
    if wr.events != [] {
      batch := lw.Update(wr.events);
    } else {
      batch := lw.Reset(wr.snapshot);
    }
  }

  /** The watcher has seen the results `seen`, and the receiver got every batch they gave. */
  ghost predicate UpToDate(own: Lease, seen: seq<WatchResult>, lw: LeaseWatcher, receiver: Receiver)
    reads lw, receiver
  {
    && lw.ownLease == Some(own)
    && lw.leases == Run(own, Inputs(seen)).leases
    && receiver.Within() && receiver.sent == Emitted(own, seen)
  }

  /** The receiver was dropped: it holds the first `limit` of the batches for `seen`. */
  ghost predicate CutOff(own: Lease, seen: seq<WatchResult>, receiver: Receiver)
    reads receiver
  {
    receiver.Within() && receiver.Full() && receiver.sent <= Emitted(own, seen)
  }

  method HandleBatchResults(
    own: Lease, lw: LeaseWatcher, results: seq<WatchResult>, receiver: Receiver, ghost seen: seq<WatchResult>)
    returns (ok: bool)
    requires UpToDate(own, seen, lw, receiver)
    modifies lw`leases, receiver
    ensures ok ==> UpToDate(own, seen + results, lw, receiver)
    ensures !ok ==> CutOff(own, seen + results, receiver)
  {
    hide Run, Inputs, Emitted, StepRun;
    assert seen + results[..0] == seen;
    for i := 0 to |results|
      invariant UpToDate(own, seen + results[..i], lw, receiver)
    {
      ghost var p, q := seen + results[..i], seen + results[..i + 1];
      assert q[..|q| - 1] == p;
      SeenOneMore(own, q);
      var batch := Reduce(lw, results[i]);
      if batch != [] {
        ok := receiver.Send(batch);
        if !ok {
          assert q + results[i + 1..] == seen + results;
          CutOffExtends(own, q, results[i + 1..], receiver);
          return;
        }
      }
    }
    assert results[..|results|] == results;
    ok := true;
  }

  datatype SessionOutcome = Retry | Stop | Dropped

  /** One session: its items, then what its channel still holds, unless it is cut short. */
  method RunSession(own: Lease, lw: LeaseWatcher, session: Session, receiver: Receiver, ghost seen: seq<WatchResult>)
    returns (outcome: SessionOutcome)
    requires UpToDate(own, seen, lw, receiver)
    modifies lw`leases, receiver
    ensures outcome == Dropped ==> CutOff(own, seen + Results(session), receiver)
    ensures outcome != Dropped ==> UpToDate(own, seen + Results(session), lw, receiver)
    ensures outcome != Dropped ==> (outcome == Stop <==> Stops(session))
  {
    hide UpToDate, CutOff, Flatten, Emitted, Inputs, Run;
    ghost var first := Flatten(session.received);
    ghost var buffered := if session.end.Finished? then Flatten(session.buffered) else [];
    assert seen + Results(session) == seen + first + buffered;
    var alive := Drain(own, lw, session.received, receiver, seen);
    if !alive {
      CutOffExtends(own, seen + first, buffered, receiver);
      return Dropped;
    }
    match session.end {
      case Cancelled =>
        assert seen + first + buffered == seen + first;
        return Stop;
      case ChannelClosed =>
        assert seen + first + buffered == seen + first;
      case Finished(ok, cancelled) =>
        alive := Drain(own, lw, session.buffered, receiver, seen + first);
        if !alive {
          return Dropped;
        }
        if ok || cancelled {
          return Stop;
        }
    }
    outcome := if session.cancelledInBackoff then Stop else Retry;
  }

  /**
    Watches through `sessions` and returns the retry delays in seconds.  The
    batches the receiver holds in the end are exactly the non-empty batches of
    all results of all sessions, in order, cut off where it was dropped.
   */
  method WatchLeases(own: Lease, sessions: seq<Session>, receiver: Receiver) returns (delays: seq<nat>)
    requires receiver.sent == []
    modifies receiver
    ensures receiver.sent == Emitted(own, AllResults(sessions))
         || CutOff(own, AllResults(sessions), receiver)
    ensures |delays| <= |sessions| && Delays(sessions, delays)
    ensures |delays| < |sessions| ==> Stops(sessions[|delays|]) || receiver.Full()
  {
    var lw := new LeaseWatcher(own);
    var backoff := 1;
    delays := [];
    ghost var seen := [];
    assert UpToDate(own, seen, lw, receiver);
    RemainingStart(sessions);
    hide UpToDate, CutOff, Emitted, Results, AllResults, Inputs, Run, RetryDelay, Stops, Remaining, After, Delays, Min;
    for n := 0 to |sessions|
      invariant fresh(lw) && UpToDate(own, seen, lw, receiver)
      invariant Remaining(sessions, n, seen)
      invariant |delays| == n && Delays(sessions, delays) && backoff == RetryDelay(n)
    {
      RemainingStep(sessions, n, seen);
      var outcome := RunSession(own, lw, sessions[n], receiver, seen);
      if outcome == Dropped {
        CutOffExtends(own, seen + Results(sessions[n]), After(sessions, n), receiver);
        return;
      }
      seen := seen + Results(sessions[n]);
      if outcome == Stop {
        Reached(own, seen, lw, receiver);
        return;
      }
      DelaysStep(sessions, delays);
      delays := delays + [backoff];
      backoff := Min(backoff * 2, 30);
    }
    RemainingEnd(sessions, seen);
    Reached(own, seen, lw, receiver);
  }

  /** One delay per failed session, the n-th of them `RetryDelay(n)`. */
  ghost predicate Delays(sessions: seq<Session>, delays: seq<nat>) {
    && |delays| <= |sessions|
    && forall i :: 0 <= i < |delays| ==> delays[i] == RetryDelay(i) && !Stops(sessions[i])
  }

  lemma DelaysStep(sessions: seq<Session>, delays: seq<nat>)
    requires |delays| < |sessions| && Delays(sessions, delays) && !Stops(sessions[|delays|])
    ensures Delays(sessions, delays + [RetryDelay(|delays|)])
    ensures RetryDelay(|delays| + 1) == Min(RetryDelay(|delays|) * 2, 30)
  {
    RetryDelayDoubles(|delays|);
  }

  lemma RemainingStart(sessions: seq<Session>)
    ensures Remaining(sessions, 0, []) && Delays(sessions, []) && RetryDelay(0) == 1
  {
    assert sessions[0..] == sessions;
  }

  lemma {:induction false} Reached(own: Lease, seen: seq<WatchResult>, lw: LeaseWatcher, receiver: Receiver)
    requires UpToDate(own, seen, lw, receiver)
    ensures receiver.sent == Emitted(own, seen) && receiver.Within() && lw.ownLease == Some(own)
  {
  }

  lemma CutOffExtends(own: Lease, seen: seq<WatchResult>, more: seq<WatchResult>, receiver: Receiver)
    requires CutOff(own, seen, receiver)
    ensures CutOff(own, seen + more, receiver) && receiver.Full()
  {
    EmittedPrefix(own, seen, more);
  }

  /** Results of the sessions after session `n`. */
  function After(sessions: seq<Session>, n: nat): seq<WatchResult>
    requires n < |sessions|
  {
    if Stops(sessions[n]) then [] else AllResults(sessions[n + 1..])
  }

  /** `seen` are the results of the sessions before session `n`. */
  ghost predicate Remaining(sessions: seq<Session>, n: nat, seen: seq<WatchResult>) {
    n <= |sessions| && AllResults(sessions) == seen + AllResults(sessions[n..])
  }

  lemma {:induction false} RemainingStep(sessions: seq<Session>, n: nat, seen: seq<WatchResult>)
    requires n < |sessions| && Remaining(sessions, n, seen)
    ensures AllResults(sessions) == (seen + Results(sessions[n])) + After(sessions, n)
    ensures Stops(sessions[n]) ==> AllResults(sessions) == seen + Results(sessions[n])
    ensures !Stops(sessions[n]) ==> Remaining(sessions, n + 1, seen + Results(sessions[n]))
  {
    hide Results;
    assert sessions[n..][1..] == sessions[n + 1..];
    assert AllResults(sessions[n..]) == Results(sessions[n]) + After(sessions, n);
  }

  lemma {:induction false} RemainingEnd(sessions: seq<Session>, seen: seq<WatchResult>)
    requires Remaining(sessions, |sessions|, seen)
    ensures AllResults(sessions) == seen
  {
  }

  /** Feeds the items of a session's channel through the watcher, one by one. */
  method Drain(
    own: Lease, lw: LeaseWatcher, items: seq<seq<WatchResult>>, receiver: Receiver, ghost seen: seq<WatchResult>)
    returns (ok: bool)
    requires UpToDate(own, seen, lw, receiver)
    modifies lw`leases, receiver
    ensures ok ==> UpToDate(own, seen + Flatten(items), lw, receiver)
    ensures !ok ==> CutOff(own, seen + Flatten(items), receiver)
  {
    hide Run, Inputs, Emitted;
    assert seen + Flatten(items[..0]) == seen;
    for i := 0 to |items|
      invariant UpToDate(own, seen + Flatten(items[..i]), lw, receiver)
    {
      assert items[..i + 1][..i] == items[..i];
      assert seen + Flatten(items[..i + 1]) == (seen + Flatten(items[..i])) + items[i];
      ok := HandleBatchResults(own, lw, items[i], receiver, seen + Flatten(items[..i]));
      if !ok {
        FlattenConcat(items[..i + 1], items[i + 1..]);
        assert items[..i + 1] + items[i + 1..] == items;
        assert seen + Flatten(items) == (seen + Flatten(items[..i + 1])) + Flatten(items[i + 1..]);
        CutOffExtends(own, seen + Flatten(items[..i + 1]), Flatten(items[i + 1..]), receiver);
        return;
      }
    }
    assert items[..|items|] == items;
    ok := true;
  }

  // ----- facts about the specification -----

  function Min(a: nat, b: nat): nat {
    if a < b then a else b
  }

  /** Delay before retry `n`, counted from 0: doubling from one second, at most 30. */
  function RetryDelay(n: nat): nat {
    Min(Pow2(n), 30)
  }

  lemma {:induction false} RetryDelayDoubles(n: nat)
    ensures RetryDelay(n + 1) == Min(RetryDelay(n) * 2, 30)
    ensures RetryDelay(0) == 1 && (n >= 5 ==> RetryDelay(n) == 30)
  {
    if n >= 4 {
      PowerAbove(n + 1);
      if n >= 5 {
        PowerAbove(n);
      }
    } else {
      assert Pow2(0) == 1 && Pow2(1) == 2 && Pow2(2) == 4 && Pow2(3) == 8 && Pow2(4) == 16;
    }
  }

  lemma {:induction false} PowerAbove(n: nat)
    requires n >= 5
    ensures Pow2(n) >= 32
  {
    if n == 5 {
      assert Pow2(2) == 4 && Pow2(4) == 16;
    } else {
      PowerAbove(n - 1);
    }
  }

  lemma InputsStep(q: seq<WatchResult>)
    requires q != []
    ensures var p := q[..|q| - 1];
      Inputs(q) == Inputs(p) + [ToInput(q[|q| - 1])] && Inputs(q)[..|Inputs(q)| - 1] == Inputs(p)
  {
  }

  /** One more result: what is stored then, and what is emitted. */
  lemma SeenOneMore(own: Lease, q: seq<WatchResult>)
    requires q != []
    ensures var p := q[..|q| - 1];
      var o := StepRun(own, Run(own, Inputs(p)).leases, ToInput(q[|q| - 1]));
      && Run(own, Inputs(q)).leases == o.leases
      && Emitted(own, q) == (if o.batch == [] then Emitted(own, p) else Emitted(own, p) + [o.batch])
  {
    InputsStep(q);
  }

  lemma {:induction false} FlattenConcat<T>(a: seq<seq<T>>, b: seq<seq<T>>)
    ensures Flatten(a + b) == Flatten(a) + Flatten(b)
  {
    if b == [] {
      assert a + b == a;
    } else {
      var b' := b[..|b| - 1];
      FlattenConcat(a, b');
      assert (a + b)[..|a + b| - 1] == a + b';
    }
  }

  lemma {:induction false} EmittedPrefix(own: Lease, a: seq<WatchResult>, b: seq<WatchResult>)
    ensures Emitted(own, a) <= Emitted(own, a + b)
  {
    if b == [] {
      assert a + b == a;
    } else {
      EmittedPrefix(own, a, b[..|b| - 1]);
      assert (a + b)[..|a + b| - 1] == a + b[..|b| - 1];
    }
  }

  /** Together the batches are the events of the run: none lost, none repeated, order kept. */
  lemma {:induction false} EmittedIsRun(own: Lease, rs: seq<WatchResult>)
    ensures Flatten(Emitted(own, rs)) == Run(own, Inputs(rs)).batch
    ensures forall b :: b in Emitted(own, rs) ==> b != []
  {
    if rs == [] {
    } else {
      var p := rs[..|rs| - 1];
      EmittedIsRun(own, p);
      InputsStep(rs);
      var b := StepRun(own, Run(own, Inputs(p)).leases, ToInput(rs[|rs| - 1])).batch;
      if b != [] {
        assert Emitted(own, rs)[..|Emitted(own, rs)| - 1] == Emitted(own, p);
      }
    }
  }

  /**
    What one more watch result does after any results: with events, the stored
    leases are what those events make of them and the batch passes them on; without
    events, they are the snapshot and the batch is the difference to it.
   */
  lemma {:induction false} OneMoreResult(own: Lease, rs: seq<WatchResult>, wr: WatchResult) returns (batch: seq<Event>)
    requires ProperRun(own, Inputs(rs)) && UniformEvents(own, wr.events)
    requires Uniform(own, wr.snapshot) && NoDup(wr.snapshot)
    ensures var before, after := Run(own, Inputs(rs)).leases, Run(own, Inputs(rs + [wr])).leases;
      if wr.events != [] then forall l :: l in after <==> StoredAfter(own, before, wr.events, l)
      else after == wr.snapshot
    ensures Emitted(own, rs + [wr]) == if batch == [] then Emitted(own, rs) else Emitted(own, rs) + [batch]
    ensures var before := Run(own, Inputs(rs)).leases;
      if wr.events != [] then PassesOn(own, before, wr.events, batch)
      else batch == NewEvents(own, before, wr.snapshot) + RemovedEvents(Unlisted(own, before, wr.snapshot))
  {
    hide NoDup, Uniform, UniformEvents, PassesOn, NewEvents, Unlisted, StoredAfter, UpdateAll, ResetAll, Run,
         Emitted, Inputs;
    var q := rs + [wr];
    assert q[..|rs|] == rs && q[|rs|] == wr;
    SeenOneMore(own, q);
    StoredProper(own, Inputs(rs));
    var before := Run(own, Inputs(rs)).leases;
    batch := StepRun(own, before, ToInput(wr)).batch;
    if wr.events != [] {
      UpdateStores(own, before, wr.events);
      UpdateEmits(own, before, wr.events);
    } else {
      ResetEmits(own, before, wr.snapshot);
    }
  }
}
