/**
  The route network as it runs: the batches that the long-term watch sends are
  handled one by one as they arrive.
 */
module WatchRoutes {
  import opened Base
  import opened Lease
  import opened LeaseRuns
  import opened RouteNetwork
  import opened RouteAgreement
  import opened SubnetWatch

  function HandledBatches(b: Backend, st: State, batches: seq<seq<Event>>): State {
    if batches == [] then st
    else HandledAll(b, HandledBatches(b, st, batches[..|batches| - 1]), batches[|batches| - 1])
  }

  lemma {:induction false} HandledConcat(b: Backend, st: State, x: seq<Event>, y: seq<Event>)
    ensures HandledAll(b, st, x + y) == HandledAll(b, HandledAll(b, st, x), y)
  {
    hide Handled;
    if y == [] {
      assert x + y == x;
    } else {
      var n := |y| - 1;
      HandledConcat(b, st, x, y[..n]);
      assert (x + y)[..|x + y| - 1] == x + y[..n];
    }
  }

  /** Batch by batch or all at once is the same. */
  lemma {:induction false} BatchesAreOne(b: Backend, st: State, batches: seq<seq<Event>>)
    ensures HandledBatches(b, st, batches) == HandledAll(b, st, Flatten(batches))
  {
    hide HandledAll;
    if batches == [] {
      NothingHandled(b, st);
    } else {
      var n := |batches| - 1;
      BatchesAreOne(b, st, batches[..n]);
      HandledConcat(b, st, Flatten(batches[..n]), batches[n]);
    }
  }

  lemma {:induction false} NothingHandled(b: Backend, st: State)
    ensures HandledAll(b, st, []) == st
  {
  }

  /** What was sent before the receiver was dropped is all that some first results gave. */
  lemma {:induction false} SentIsEmitted(own: Lease, rs: seq<WatchResult>, sent: seq<seq<Event>>) returns (k: nat)
    requires sent <= Emitted(own, rs)
    ensures k <= |rs| && sent == Emitted(own, rs[..k])
    decreases |rs|
  {
    if sent == Emitted(own, rs) {
      k := |rs|;
      assert rs[..k] == rs;
    } else {
      var p := rs[..|rs| - 1];
      assert sent <= Emitted(own, p);
      k := SentIsEmitted(own, p, sent);
      assert p[..k] == rs[..k];
    }
  }

  /** The receiving loop of a network, over the batches in its channel. */
  method RunRouteNetwork(network: RouteNetwork, batches: seq<seq<Event>>)
    modifies network
    ensures network.Contents() == HandledBatches(network.backend, old(network.Contents()), batches)
  {
    hide HandledAll;
    for n := 0 to |batches|
      invariant network.Contents() == HandledBatches(network.backend, old(network.Contents()), batches[..n])
    {
      assert batches[..n + 1][..n] == batches[..n];
      network.HandleSubnetEvents(batches[n]);
    }
    assert batches[..|batches|] == batches;
  }

  /** The first `k` of the results that the sessions deliver. */
  function FirstResults(sessions: seq<Session>, k: nat): seq<WatchResult> {
    if k <= |AllResults(sessions)| then AllResults(sessions)[..k] else AllResults(sessions)
  }

  /**
    The watch and a host-gw network together, across any number of failing
    sessions: tracked list and kernel table agree with the leases the watcher
    stored after `k` of the results, and `k` is all of them unless the receiver was dropped.
   */
  method WatchIntoRoutes(g: Setting, sessions: seq<Session>, receiver: Receiver)
    returns (network: RouteNetwork, ghost k: nat)
    requires receiver.sent == [] && GoodRun(g, Inputs(AllResults(sessions)))
    modifies receiver
    ensures fresh(network) && k <= |AllResults(sessions)| && (k < |AllResults(sessions)| ==> receiver.Full())
    ensures receiver.sent == Emitted(g.own, FirstResults(sessions, k))
    ensures Agrees(g, Run(g.own, Inputs(FirstResults(sessions, k))).leases, network.Contents())
  {
    hide AllResults, Emitted, Run, Inputs, GoodRun, Agrees, HandledAll;
    var delays := WatchLeases(g.own, sessions, receiver);
    ghost var all := AllResults(sessions);
    if receiver.sent == Emitted(g.own, all) {
      k := |all|;
      assert all[..k] == all;
    } else {
      k := SentIsEmitted(g.own, all, receiver.sent);
    }
    network := new RouteNetwork(HostGw(g.own, g.link), g.base);
    RunRouteNetwork(network, receiver.sent);
    GoodResults(g, all, k);
    EmittedAgrees(g, all[..k]);
  }

  lemma {:induction false} InputsPrefix(rs: seq<WatchResult>, k: nat)
    requires k <= |rs|
    ensures |Inputs(rs)| == |rs| && Inputs(rs[..k]) == Inputs(rs)[..k]
  {
    if k == |rs| {
      assert rs[..k] == rs;
      InputsLength(rs);
      assert Inputs(rs)[..k] == Inputs(rs);
    } else {
      var p := rs[..|rs| - 1];
      InputsPrefix(p, k);
      assert p[..k] == rs[..k];
    }
  }

  lemma {:induction false} InputsLength(rs: seq<WatchResult>)
    ensures |Inputs(rs)| == |rs|
  {
    if rs == [] {
    } else {
      InputsLength(rs[..|rs| - 1]);
    }
  }

  /** The first results of a good run are a good run. */
  lemma {:induction false} GoodResults(g: Setting, rs: seq<WatchResult>, k: nat)
    requires k <= |rs| && GoodRun(g, Inputs(rs))
    ensures GoodRun(g, Inputs(rs[..k]))
  {
    hide Inputs, KnownRun, QuietRun;
    InputsPrefix(rs, k);
    PrefixKnown(g, Inputs(rs), k);
  }

  /** Handling the batches emitted for any results that form a good run makes the three views agree. */
  lemma {:induction false} EmittedAgrees(g: Setting, rs: seq<WatchResult>)
    requires GoodRun(g, Inputs(rs))
    ensures Agrees(g, Run(g.own, Inputs(rs)).leases,
                   HandledBatches(HostGw(g.own, g.link), State(g.base, [], []), Emitted(g.own, rs)))
  {
    hide Emitted, Run, Inputs, GoodRun, Agrees, HandledAll, HandledBatches, HostGw;
    EmittedIsRun(g.own, rs);
    BatchesAreOne(HostGw(g.own, g.link), State(g.base, [], []), Emitted(g.own, rs));
    EndToEnd(g, Inputs(rs));
  }
}
