# Flannel, verified in Dafny

A model of the parts of flannel whose behaviour is hardest to see from one
function: the watcher that turns lease events and snapshots into batches and
the route network that follows them, the UDP proxy, the VICI codec, the
calendar arithmetic of the request signer, the iptables bootstrap, the address
and network-configuration arithmetic, and the readers of streams, flags and
`subnet.env`.  `dafny verify dfyconfig.toml` checks the whole project.

State that the program updates in place is a class (`LeaseWatcher`,
`RouteNetwork`, `Receiver`, `RouteTable`, `Connection`, `Kernel`, `Config`,
`FlagSet`) whose methods are proved against functions on values; the results
over whole runs are lemmas about those functions.

| file | what it holds |
|---|---|
| `Base`, `Bits`, `Text` | results and options; words as naturals with bitwise operations; strings |
| `IpNet`, `NetConfig` | networks over 32 and 128 bits; the configuration check |
| `Lease`, `LeaseRuns`, `LeaseEffects` | the lease watcher; what any run of updates and resets keeps; what is stored and emitted, from the inputs alone |
| `RouteNetwork`, `RouteRuns`, `RouteFaults`, `RouteAgreement`, `RouteKernel` | tracked routes and the kernel table; runs and the check pass; outside deletions; host-gw end to end; the same by fields |
| `SubnetWatch`, `WatchRoutes` | the long-term watch across failing sessions; the watch feeding a route network |
| `Vici`, `ViciLanguage`, `ViciWire` | encoder and parser; the accepted language, framing, requests; the bytes |
| `UtcDate` | civil dates from timestamps |
| `ProxyPacket`, `UdpProxy`, `UdpRuns`, `UdpWire`, `UdpForward` | checksums and packets; commands and the route table; runs; the bytes; the forwarding step |
| `IpTables`, `IpTablesOrder`, `IpTablesWalk` | rules and transactions; resulting order and packet decisions; the way through the nat table |
| `KubeWatch`, `KubeFrames` | watch decoder; what written streams yield |
| `Flags`, `FlagsGrammar`, `FlagErrors`, `FlagValues` | flag parsing; the accepted lists; the rejected ones and their errors; the texts of values |
| `SubnetEnv` | subnet.env writer and readers |

The central results:

- **Leases to kernel.** Over every run of updates and resets piped into a host-gw
  network, for IPv4, IPv6 and both, tracked lists and kernel routes are exactly the
  routes of the stored leases of other nodes at every point if and only if no reset
  changes the routes of a lease that stays stored (`RouteAgreement.EndToEndExactly`).
  The same when the batches come from the long-term watch across failing sessions
  (`WatchRoutes.WatchIntoRoutes`).  By fields and from the inputs alone, with neither the
  watcher nor the route function in the statement: `RouteKernel.InputsToKernel`.
- **Outside deletions.** Over every interleaving of lease events, outside deletions
  and checks, the tracked lists keep one route per destination if and only if no add
  changes the route of a destination that the kernel lost (`RouteFaults.RunLoose`);
  the next check then makes leases, lists and kernel agree again
  (`RouteAgreement.EndToEndWithFaults`).
- **Lease watcher.** Folding the emitted events always gives the stored peer
  subnets (`LeaseRuns.RunTracksSubnets`); their images are right exactly when
  resets do not change a stored lease (`LeaseRuns.ResetMirrors`).  What is stored and
  what is emitted follow from the events since the last snapshot
  (`LeaseEffects.RunStores`, `LeaseEffects.EmittedSince`).
- **VICI.** The accepted byte strings are characterised exactly
  (`ViciLanguage.ParserLanguage`); encoding round-trips exactly for messages
  whose names and values fit their length fields (`ViciLanguage.RoundTrip`); the bytes are
  those of the format (`ViciWire`).
- **Calendar.** `utc_date` and the Gregorian day count are inverse to each other
  on all integers (`UtcDate.DayNumberOfUtcDate`, `UtcDate.UtcDateOfDayNumber`).
- **Checksums.** The 4-byte-word sum is the Internet checksum, and the TTL patch
  is a recomputation exactly from TTL 2 up (`ProxyPacket.CksumIsRfc1071`,
  `ProxyPacket.TtlPatchIsRecomputation`).
- **Route table.** After any history a self-reordering list answers like a map for
  exactly the addresses whose installed subnets agree on the public address, as
  disjoint ones do (`UdpRuns.LookupIsMapLookup`), and for no other address are later
  answers safe from lookups (`UdpRuns.LookupsInterfereExactly`).  A packet then reaches the
  host of its subnet one hop further, or its sender hears of it
  (`UdpForward.Delivered`, `UdpForward.NotDelivered`).
- **iptables.** For any rule list and any chains, what bootstrap and teardown leave, and
  exactly when that is the wanted order or the foreign rules alone
  (`IpTablesOrder.BootstrapOrders`, `IpTablesOrder.TeardownRemoves`); the chain then
  masquerades exactly the packets it should (`IpTablesOrder.BootstrapMasquerades`), on the
  whole way through POSTROUTING (`IpTablesWalk.PostroutingMasquerades`).
- **Configuration.** Which configurations pass, and what they are filled in with, by
  intervals and remainders (`NetConfig.PassesExactly`, `NetConfig.CheckDecides`).
- **Watch stream.** What every stream of written lines yields, however it is cut and
  whether it ends, breaks or goes bad (`KubeFrames.StreamYields`, `KubeFrames.BreakYields`,
  `KubeFrames.BadLineEnds`).
- **Flags.** The accepted argument lists are exactly those of a grammar of written
  words (`FlagsGrammar.AcceptedLanguage`), and each error has its own such grammar
  (`FlagErrors.RejectedLanguage`).

## Where code and stated intent differ

The model follows the code; each difference has a lemma at an input and one that
says exactly when it shows.

- The watch promises to filter every event of the own subnet, removals included
  (`subnet/watch.rs:42-43`).  A snapshot that lists the own lease stores it, and
  the next reset emits its removal: `LeaseRuns.OwnRemovalEmitted`; exact condition in
  `LeaseRuns.ResetEmitsOwn` and `LeaseRuns.OwnStored`.
- A reset replaces a stored lease by a changed one without an event, which leaves the
  route to the old gateway in the kernel: `RouteAgreement.SilentReplacement`; exact
  condition in `LeaseRuns.ResetMirrors` and, over runs, `RouteAgreement.EndToEndExactly`.
- A lease that changes its gateway while somebody has deleted its route is tracked
  twice, and the old route can come back for a subnet that no node has:
  `RouteAgreement.StaleComesBack`; exact condition in `RouteFaults.StepLoose` and
  `RouteFaults.RunLoose`.
- The VICI parser is called the inverse of the encoder, yet it accepts one section
  end at top level (`ViciLanguage.StrayEndAccepted`) and missing section ends at the
  end of input; `ViciLanguage.ParserLanguage` says which inputs and no others.
- A packet that arrives with TTL 0 leaves with TTL 255 and a check field that is
  no longer the recomputed one: `ProxyPacket.TtlZeroWraps`; exact condition in
  `ProxyPacket.TtlPatchIsRecomputation`.
- With overlapping subnets a lookup can change a later answer:
  `UdpRuns.OverlapInterferes`; exact condition in `UdpRuns.LookupsInterfereExactly`.
- The periodic iptables check says that order matters but looks at presence only: a
  flannel chain with its rules out of order stays so and masquerades marked packets
  (`IpTablesOrder.EnsureMissesOrder`, `IpTablesOrder.EnsureMasqueradesMarked`; exact
  condition in `IpTablesOrder.EnsureOrders`).
- Bootstrap is meant to leave rules in order, but a chain in which a wanted rule occurs
  more often than wanted can be turned over once more by the next run:
  `IpTablesOrder.SurplusRotates`; exact condition in
  `IpTablesOrder.BootstrapChangesNothing`.
- The configuration check does not compare the two ends of the subnet range: a last
  subnet below the first passes when both are given, and when only the last is given
  and is the network address itself (`NetConfig.OrderNotChecked`; exact condition in
  `NetConfig.OrderedExactly`).
- A bad line in the watch stream also discards the good events of its own chunk
  (`KubeWatch.EventLost`, `KubeWatch.LetterLost`; exact condition in
  `KubeWatch.LossExactly`).
- Integer flags are meant to read as Go's `strconv.ParseInt` does, yet a sign may follow
  the mark (`FlagValues.LateSignAccepted`; exact language in
  `FlagValues.ParseIntExactly`).
- `subnet.env` holds lease address + 1, so a lease of a single address does not read
  back: `SubnetEnv.SingleAddressLost`; exact condition in
  `SubnetEnv.FirstAddressMasksBack` and both round trips.

## Model

| member | source | states |
|---|---|---|
| `Lease.LeaseWatcher.constructor` | crates/flannel-core/src/lease/mod.rs:88-93 | A new watcher knows the own lease and stores nothing. |
| `Lease.LeaseWatcher.Reset` | crates/flannel-core/src/lease/mod.rs:102-148 | New list and batch are those of `ResetAll`: unmatched snapshot leases as Added, then unmatched stored ones as Removed, own lease skipped in the scan, list replaced by the snapshot. |
| `Lease.LeaseWatcher.Update` | crates/flannel-core/src/lease/mod.rs:153-172 | New list and batch are the left fold of the events that are not the own lease's; what that stores and emits is in the two `LeaseEffects` rows on updates. |
| `Lease.LeaseWatcher.Add` | crates/flannel-core/src/lease/mod.rs:176-197 | Overwrites the first stored lease of the same subnet, or appends. |
| `Lease.LeaseWatcher.Remove` | crates/flannel-core/src/lease/mod.rs:201-225 | Takes the first stored lease of the same subnet out and reports it; reports the argument if there is none. |
| `LeaseRuns.MatchIsKeyEquality` | crates/flannel-core/src/lease/mod.rs:232-260 | With equal family flags both uses of the one-sided subnet comparison are equality of subnet keys. |
| `LeaseRuns.AddToMembers` | crates/flannel-core/src/lease/mod.rs:176-197 | Adding keeps the list a set of subnets: the new lease, and the old ones of other subnets. |
| `LeaseRuns.RemoveFromMembers` | crates/flannel-core/src/lease/mod.rs:201-225 | Removing leaves exactly the leases of other subnets, and the reported lease has the asked subnet. |
| `LeaseRuns.UpdateMirrors` | crates/flannel-core/src/lease/mod.rs:153-172 | Any map kept by folding the events stays exactly the images of the stored peer leases; removals name the image the map held; the own subnet is never emitted. |
| `LeaseRuns.ResetMirrors` | crates/flannel-core/src/lease/mod.rs:102-148 | After a reset the folded map has exactly the snapshot's peer subnets, and their images are right if and only if no stored subnet changed its image; no Added event is the own subnet's. |
| `LeaseRuns.ResetEmitsOwn` | crates/flannel-core/src/lease/mod.rs:102-148 | A reset emits an event of the own subnet if and only if that subnet was stored, and the event is a removal. |
| `LeaseRuns.OwnStored` | crates/flannel-core/src/lease/mod.rs:102-172 | Over every run the own subnet is stored if and only if the last snapshot listed it. |
| `LeaseRuns.OwnRemovalEmitted` | crates/flannel-core/src/subnet/watch.rs:42-43 | Two snapshots of just the own lease emit its removal, against the stated intent. |
| `LeaseRuns.RunMirrors` | crates/flannel-core/src/lease/mod.rs:102-225 | Over every run with uniform flags, duplicate-free snapshots and quiet resets: no subnet stored twice, folded events are the images of the stored peer leases, removals are consistent, the own subnet is never added. |
| `LeaseRuns.RunTracksSubnets` | crates/flannel-core/src/lease/mod.rs:102-225 | The same for the set of subnets, with no condition on what resets change. |
| `LeaseRuns.RunInventsNothing` | crates/flannel-core/src/lease/mod.rs:102-225 | Whatever holds of all incoming leases holds of all stored and emitted ones. |
| `LeaseEffects.SameSubnetMeaning` | crates/flannel-core/src/lease/mod.rs:232-260 | Two leases compare equal if and only if every family that the flags enable agrees, and IPv4 if they enable none. |
| `LeaseEffects.UpdateStores` | crates/flannel-core/src/lease/mod.rs:153-172 | A lease of another node is stored after an update if and only if the last event of its subnet added just it, or there was none and it was stored; the own subnet is left alone. |
| `LeaseEffects.UpdateEmits` | crates/flannel-core/src/lease/mod.rs:153-172 | The batch has one event per incoming event of another node, in order: additions as they came, removals with the lease stored at that point, or their own if none was. |
| `LeaseEffects.PassesOnShape` | crates/flannel-core/src/lease/mod.rs:153-172 | So kinds and subnets of the batch are those of the incoming events of other nodes, one for one. |
| `LeaseEffects.ResetEmits` | crates/flannel-core/src/lease/mod.rs:102-148 | A reset stores the snapshot and emits exactly the additions of its new subnets in snapshot order, then the removals of the stored leases it does not list, and of the own one, in list order. |
| `LeaseEffects.RunStores` | crates/flannel-core/src/lease/mod.rs:102-225 | After any run a lease is stored if and only if the events since the last snapshot make it so: added by the last event of its subnet, or listed by the snapshot and not touched. |
| `LeaseEffects.EmittedSince` | crates/flannel-core/src/lease/mod.rs:102-225 | What a run emitted after its last snapshot passes on the events since then. |
| `LeaseEffects.RunEmits` | crates/flannel-core/src/lease/mod.rs:102-225 | After any run one more input adds just its own batch: passed-on events for an update, the difference of the lists for a reset. |
| `RouteNetwork.RouteNetwork.RouteAdd` | crates/flannel-core/src/backend/route_network.rs:227-285 | Table and list become those of `RouteAdded`: track, replace a stale route of the same destination, add unless present. |
| `RouteNetwork.RouteNetwork.RouteDel` | crates/flannel-core/src/backend/route_network.rs:198-207 | The first equal tracked route goes, and the kernel route if it matches. |
| `RouteNetwork.RouteNetwork.HandleSubnetEvents` | crates/flannel-core/src/backend/route_network.rs:139-221 | A batch is the left fold of its events over table and both lists, other backend types and missing route functions skipped. |
| `RouteNetwork.RouteNetwork.CheckSubnetExistInRoutes` | crates/flannel-core/src/backend/route_network.rs:304-343 | One pass over one dump: every tracked route without a match is added where the kernel allows; the list is unchanged. |
| `RouteNetwork.RouteAddedEffect` | crates/flannel-core/src/backend/route_network.rs:227-285 | From any state with one tracked route per destination and no destination held by another route, an add that is not blind leaves the route in the kernel and tracked, replaces what was at its destination in both, and changes no other destination. |
| `RouteNetwork.RouteAddedTracked` | crates/flannel-core/src/backend/route_network.rs:227-285 | If every tracked route was in the kernel, every one still is. |
| `RouteNetwork.BlindBreaks` | crates/flannel-core/src/backend/route_network.rs:233-264 | An add that changes the route of a destination the kernel lost tracks two routes for it. |
| `RouteNetwork.RouteRemovedEffect` | crates/flannel-core/src/backend/route_network.rs:198-207 | A removal takes out exactly that route, in the kernel if it was there, and keeps list and table consistent, tracked routes missing from the kernel or not. |
| `RouteNetwork.StaleRemoved` | crates/flannel-core/src/backend/route_network/spec.rs:145-150 | Dropping the replaced kernel route from the list leaves the new route and all routes to other destinations. |
| `RouteRuns.RunSound` | crates/flannel-core/src/backend/route_network.rs:139-285 | After any events of both families every tracked route is in the kernel and no destination is tracked twice. |
| `RouteRuns.CheckPassEffect` | crates/flannel-core/src/backend/route_network.rs:304-343 | A check pass fills exactly the free destinations of the tracked routes and changes nothing else. |
| `RouteRuns.CheckPassRestores` | crates/flannel-core/src/backend/route_network.rs:304-343 | A tracked route is in the kernel after a pass if and only if its destination was not taken by a different route. |
| `RouteRuns.CheckPassUndoesDeletion` | crates/flannel-core/src/backend/route_network.rs:304-343 | From any state whose tracked routes are in the kernel, if an outsider deletes any subset of them one pass restores exactly those destinations with the tracked routes and touches nothing else; the table is the very old one if and only if the deleted routes carried the flags the network writes. |
| `RouteRuns.RunRecovers` | crates/flannel-core/src/backend/route_network.rs:289-300 | The same after every run, for both families and the check over both. |
| `RouteAgreement.FoldsAgree` | crates/flannel-core/src/backend/hostgw.rs:60-88 | Folding the events by destination and by subnet gives the same routes, in each family. |
| `RouteAgreement.EndToEnd` | crates/flannel-core/src/backend/route_network.rs:139-285 | After every good run of watcher inputs, IPv4-only, IPv6-only or dual-stack: tracked lists and kernel table beyond the initial one are exactly the host-gw routes of the stored peer leases, and the initial table is untouched; the fields of the routes are in `RouteKernel.AgreesByFields`. |
| `RouteAgreement.EndToEndExactly` | crates/flannel-core/src/lease/mod.rs:102-225 | Over every run of known leases this holds at every point if and only if no reset changes the routes of a lease that stays stored. |
| `RouteAgreement.EndToEndWithFaults` | crates/flannel-core/src/backend/route_network.rs:139-343 | With outsiders deleting peer routes and checks anywhere between the events, all steps safe, it holds again after the next check. |
| `RouteKernel.AgreesByFields` | crates/flannel-core/src/backend/hostgw.rs:60-88 | Agreement by fields: each stored lease of another node has its kernel route to the lease subnet via its public IPv4 (IPv6) address on the link, no on-link flag; every entry beyond the initial table is one of those, and that table is unchanged. |
| `RouteKernel.FitIsAdmissible` | crates/flannel-core/src/backend/hostgw.rs:60-88 | The conditions on the leases of a run follow from conditions on their fields. |
| `RouteKernel.QuietRunByFields` | crates/flannel-core/src/lease/mod.rs:116-145 | A run is quiet if and only if no reset changes a public address, of a family in use, of a lease that stays stored. |
| `RouteKernel.InputsToKernel` | crates/flannel-core/src/backend/route_network.rs:139-221 | From watcher inputs to kernel fields: after every such run the kernel has, beyond the initial table, exactly the routes of the leases of other nodes that the inputs since the last snapshot leave in force. |
| `RouteKernel.InputsToKernelWithFaults` | crates/flannel-core/src/backend/route_network.rs:139-343 | The same with outsiders deleting routes, after the next check. |
| `RouteKernel.OtherTypesIgnored` | crates/flannel-core/src/backend/route_network.rs:139-221 | Events of other backend types are as if they had not come. |
| `RouteKernel.NoRouteFunction` | crates/flannel-core/src/backend/route_network.rs:139-221 | An event that enables IPv4 is dropped as a whole by a network without an IPv4 route function. |
| `RouteAgreement.SingleFamilyPaired` | crates/flannel-core/src/backend/hostgw.rs:60-88 | With one family a destination is a subnet, so the pairing that dual stack asks of its leases is free. |
| `RouteAgreement.SilentReplacement` | crates/flannel-core/src/lease/mod.rs:116-145 | Two snapshots of one subnet with different public addresses leave the new lease stored and the route to the old address tracked and installed. |
| `RouteFaults.StepLoose` | crates/flannel-core/src/backend/route_network.rs:139-343 | From one route per destination with no foreign route on tracked destinations, an event, an outside deletion or a check keeps that, and keeps one route per destination, if and only if it is not an add that changes the route of a destination the kernel lost. |
| `RouteFaults.RunLoose` | crates/flannel-core/src/backend/route_network.rs:139-343 | Whole runs that interleave the three have one route per destination throughout if and only if every step is such, and then no tracked destination ever holds another route. |
| `RouteFaults.RunThenCheck` | crates/flannel-core/src/backend/route_network.rs:289-300 | After a run of such steps the next check leaves every tracked route in the kernel. |
| `RouteAgreement.StaleComesBack` | crates/flannel-core/src/backend/route_network.rs:233-264 | Add, outside deletion, change of gateway, removal: the next check installs the first route again. |
| `WatchRoutes.RunRouteNetwork` | crates/flannel-core/src/backend/route_network.rs:119-130 | The receiving loop handles the batches in order. |
| `WatchRoutes.BatchesAreOne` | crates/flannel-core/src/backend/route_network.rs:119-130 | Handling batch by batch is handling all events in order. |
| `WatchRoutes.WatchIntoRoutes` | crates/flannel-core/src/backend/route_network.rs:85-136 | Watch and host-gw network together, across failing sessions: list and table agree with the leases stored after the results delivered, all of them unless the receiver was dropped. |
| `RouteAgreement.AddedSynced` | crates/flannel-core/src/backend/route_network.rs:227-285 | An add that is not blind extends list and table by exactly its route, tracked routes missing from the kernel or not. |
| `RouteAgreement.RemovedSynced` | crates/flannel-core/src/backend/route_network.rs:189-218 | A removal that names the tracked route takes exactly it out of list and table. |
| `SubnetWatch.Reduce` | crates/flannel-core/src/subnet/watch.rs:44-50 | Events mean an update, no events a reset from the snapshot; list and batch are those of that step. |
| `SubnetWatch.OneMoreResult` | crates/flannel-core/src/subnet/watch.rs:44-70 | A result with events stores what those events say and passes them on; one without stores exactly its snapshot and sends the difference; an empty batch is not sent. |
| `SubnetWatch.HandleBatchResults` | crates/flannel-core/src/subnet/watch.rs:55-70 | The receiver gets every non-empty batch in order; if it was dropped, it holds a prefix of them. |
| `SubnetWatch.Drain` | crates/flannel-core/src/subnet/watch.rs:100-114 | Feeding channel items one by one is feeding their concatenation. |
| `SubnetWatch.RunSession` | crates/flannel-core/src/subnet/watch.rs:92-138 | A session hands on its received and, if it finished, its buffered results; it stops the watch exactly on cancellation or clean end. |
| `SubnetWatch.WatchLeases` | crates/flannel-core/src/subnet/watch.rs:83-141 | Across any number of failing sessions the batches sent are exactly the non-empty outputs over all results in order, cut only where the receiver was dropped, with one delay per failed session. |
| `SubnetWatch.RetryDelayDoubles` | crates/flannel-core/src/subnet/watch.rs:139 | min(2^n, 30) seconds is what doubling with a cap of 30 gives, for every n; it starts at 1 and is 30 from the sixth retry on. |
| `SubnetWatch.EmittedPrefix` | crates/flannel-core/src/subnet/watch.rs:55-70 | Later results never change what was sent for earlier ones. |
| `SubnetWatch.EmittedIsRun` | crates/flannel-core/src/subnet/watch.rs:55-70 | The batches are non-empty and together are the events of the watcher's run: none lost, none repeated. |
| `Vici.EncodeSegments` | crates/flannel-core/src/backend/ipsec/vici.rs:139-166 | Appends the encoding of the segments to the buffer, lengths cut to one and two bytes; the bytes themselves are in the `ViciWire` rows. |
| `Vici.ReadNameAt` | crates/flannel-core/src/backend/ipsec/vici.rs:225-233 | Result and offset are those of reading a name from the suffix at the offset. |
| `Vici.ReadU16BytesAt` | crates/flannel-core/src/backend/ipsec/vici.rs:235-246 | The same for a value with a two-byte length. |
| `Vici.ReadItemsAt` | crates/flannel-core/src/backend/ipsec/vici.rs:200-217 | The list loop agrees with reading items recursively, errors included. |
| `Vici.ParseSegmentsAt` | crates/flannel-core/src/backend/ipsec/vici.rs:177-223 | The nested offset loops agree with the recursive parser on suffixes, errors included. |
| `Vici.ParseMessage` | crates/flannel-core/src/backend/ipsec/vici.rs:102-109 | The whole input must be consumed. |
| `ViciLanguage.ParseOfEncoded` | crates/flannel-core/src/backend/ipsec/vici.rs:139-223 | Parsing an encoding followed by anything yields the segments and goes on after them, at any depth. |
| `ViciLanguage.ParserLanguage` | crates/flannel-core/src/backend/ipsec/vici.rs:102-223 | An input is accepted as message m if and only if m fits its length fields and the input is m's encoding, that encoding short of section ends of sections open at the end, or that encoding with one more section end. |
| `ViciLanguage.RoundTrip` | crates/flannel-core/src/backend/ipsec/vici.rs:96-109 | Parsing the encoding of m returns m if and only if names are at most 255 and values and items at most 65535 bytes. |
| `ViciLanguage.EncodeInjective` | crates/flannel-core/src/backend/ipsec/vici.rs:96-100 | Different messages that fit have different encodings. |
| `ViciLanguage.StrayEndAccepted` | crates/flannel-core/src/backend/ipsec/vici.rs:187-190 | A lone section end is accepted as the empty message, whose encoding is empty. |
| `ViciLanguage.FrameRoundTrip` | crates/flannel-core/src/backend/ipsec/vici.rs:250-276 | A written packet reads back, whatever follows, if and only if payload and type byte are at most 65536 bytes. |
| `ViciLanguage.StreamRoundTrip` | crates/flannel-core/src/backend/ipsec/vici.rs:250-276 | A stream of such packets reads back as the same list. |
| `ViciLanguage.Connection.WritePacket` | crates/flannel-core/src/backend/ipsec/vici.rs:250-256 | Appends length word, type and payload. |
| `ViciLanguage.Connection.ReadPacket` | crates/flannel-core/src/backend/ipsec/vici.rs:258-276 | Returns and consumes one packet, or reports an empty or oversized length word after consuming it, or the end of the stream. |
| `ViciLanguage.Connection.Request` | crates/flannel-core/src/backend/ipsec/vici.rs:328-349 | Writes exactly the command packet; the result is determined by the first response or unknown-command packet of the input. |
| `ViciLanguage.ResponseDelivered` | crates/flannel-core/src/backend/ipsec/vici.rs:328-349 | After any number of other packets the message that was encoded into the response is returned. |
| `ViciWire.KeyValueBytes` | crates/flannel-core/src/backend/ipsec/vici.rs:139-175 | A pair is byte 3, one length byte and the name, two length bytes (high first) and the value. |
| `ViciWire.ListBytes` | crates/flannel-core/src/backend/ipsec/vici.rs:139-175 | A list is byte 4 and its name, byte 5 and a counted value per item, byte 6. |
| `ViciWire.SectionBytes` | crates/flannel-core/src/backend/ipsec/vici.rs:139-175 | A section is byte 1 and its name, the bytes of the message in it, byte 2. |
| `ViciWire.MessageBytes` | crates/flannel-core/src/backend/ipsec/vici.rs:139-166 | A message is the bytes of its segments one after the other. |
| `ViciWire.PacketBytes` | crates/flannel-core/src/backend/ipsec/vici.rs:250-256 | A packet starts with four bytes, high first, that count kind and payload; then the kind, then the payload. |
| `ViciWire.RequestBytes` | crates/flannel-core/src/backend/ipsec/vici.rs:25-44 | Requests are of kind 0, responses 1, refusals 2; a request has the counted command name and then the message. |
| `UtcDate.YearOfEraCorrect` | crates/flannel-core/src/backend/tencentvpc/api.rs:227-228 | The nested divisions find the one year of the 400-year era that holds the day. |
| `UtcDate.UtcDateValid` | crates/flannel-core/src/backend/tencentvpc/api.rs:224-235 | Every timestamp yields a date with a real month and day (4/100/400 rule). |
| `UtcDate.Epoch` | crates/flannel-core/src/backend/tencentvpc/api.rs:224-235 | Day 0 is 1970-01-01. |
| `UtcDate.NextDay` | crates/flannel-core/src/backend/tencentvpc/api.rs:224-235 | 86400 seconds later is the calendar successor. |
| `UtcDate.DayNumberOfUtcDate` | crates/flannel-core/src/backend/tencentvpc/api.rs:224-235 | Counting years, months and days of the result gives back the whole days of the timestamp. |
| `UtcDate.UtcDateOfDayNumber` | crates/flannel-core/src/backend/tencentvpc/api.rs:224-235 | Every calendar date is the result for every second of its own day. |
| `UtcDate.SuccessorCountsOne` | crates/flannel-core/src/backend/tencentvpc/api.rs:224-235 | The day count used as reference agrees with the calendar successor. |
| `ProxyPacket.ComputeCksum` | crates/flannel-core/src/backend/udp/proxy_packet.rs:43-52 | The two loops terminate with the complement of the folded word sum. |
| `ProxyPacket.FoldIsCanon` | crates/flannel-core/src/backend/udp/proxy_packet.rs:48-50 | Folding is the residue modulo 65535, with 65535 instead of 0 for positive sums. |
| `ProxyPacket.SumFits` | crates/flannel-core/src/backend/udp/proxy_packet.rs:43-47 | The 64-bit accumulator cannot overflow for inputs up to 16 GiB. |
| `ProxyPacket.CksumIsRfc1071` | crates/flannel-core/src/backend/udp/proxy_packet.rs:43-52 | For lengths divisible by 4 it is the byte-swapped checksum over big-endian 16-bit words with end-around carry (sections 1 and 2 of RFC 1071). |
| `ProxyPacket.SelfVerifies` | crates/flannel-core/src/backend/udp/proxy_packet.rs:145-155 | Stored in a zero field, the checksum makes the data verify to zero. |
| `ProxyPacket.DecrementTtl` | crates/flannel-core/src/backend/udp/proxy_packet.rs:59-83 | The in-place edit is `TtlDecremented`, wrap-around and threshold included. |
| `ProxyPacket.TtlPatchIsRecomputation` | crates/flannel-core/src/backend/udp/proxy_packet.rs:59-83 | For a header with a recomputed check field, the patched field is what recomputation over the new header gives if and only if the TTL was at least 2. |
| `ProxyPacket.TtlZeroWraps` | crates/flannel-core/src/backend/udp/proxy_packet.rs:59-83 | A header with TTL 0 and a right check field leaves with TTL 255 and a wrong one. |
| `ProxyPacket.TtlFrame` | crates/flannel-core/src/backend/udp/proxy_packet.rs:59-83 | The packet is dropped exactly on TTL 1; only TTL and check field change. |
| `ProxyPacket.BuildNetUnreachable` | crates/flannel-core/src/backend/udp/proxy_packet.rs:109-158 | A reply exists exactly for answerable offenders; its length field is its real length 36 + 4·ihl, at most 92, both checksums verify, addresses are right, and it quotes the first 4·ihl + 8 bytes. |
| `ProxyPacket.AnsweredExactly` | crates/flannel-core/src/backend/udp/proxy_packet.rs:109-134 | Answerable by bytes: 20 bytes at least, a length nibble of at most 14, eight bytes after the header, not ICMP, and the 13 bits of fragment offset all zero. |
| `ProxyPacket.FillIpHeader` | crates/flannel-core/src/backend/udp/proxy_packet.rs:138-146 | Writes a verifying IP header with every field given, the identification and fragment bytes zero, and nothing past it. |
| `ProxyPacket.FillIcmp` | crates/flannel-core/src/backend/udp/proxy_packet.rs:148-155 | Writes a verifying type 3 code 0 message with the quote and leaves the IP header alone. |
| `UdpProxy.CommandRoundTrip` | crates/flannel-core/src/backend/udp/proxy.rs:41-63 | A command survives its 20 bytes. |
| `UdpProxy.BytesRoundTrip` | crates/flannel-core/src/backend/udp/proxy.rs:41-63 | Any 20 bytes decode to a command that encodes to them, padding cleared. |
| `UdpProxy.RouteTable.SetRoute` | crates/flannel-core/src/backend/udp/proxy.rs:91-102 | Overwrites the entry of the destination or appends one. |
| `UdpProxy.RouteTable.DelRoute` | crates/flannel-core/src/backend/udp/proxy.rs:106-114 | Swap-removes the entry; true exactly if there was one. |
| `UdpProxy.RouteTable.FindRoute` | crates/flannel-core/src/backend/udp/proxy.rs:116-126 | Answers with the first entry that matches and swaps it to the front. |
| `UdpProxy.ProcessCmd` | crates/flannel-core/src/backend/udp/proxy.rs:276-315 | Only a whole command changes the table; exit on close or stop; failed and short receives and unknown commands are ignored. |
| `UdpProxy.ProcessSubnetEvents` | crates/flannel-core/src/backend/udp/network.rs:118-156 | One 20-byte command per event, in order, in network byte order with the port cut to 16 bits. |
| `UdpRuns.SwapOfAnd` | crates/flannel-core/src/backend/udp/proxy.rs:116-138 | Masking in network byte order is masking in host byte order. |
| `UdpRuns.HitIsContains` | crates/flannel-core/src/backend/udp/proxy.rs:116-138 | An entry matches a network-order address exactly when its subnet contains the address. |
| `UdpRuns.DstOfInjective` | crates/flannel-core/src/backend/udp/proxy.rs:294-311 | Two subnets share a table entry exactly when their masked forms are equal. |
| `UdpRuns.CommandOfEvent` | crates/flannel-core/src/backend/udp/network.rs:135-156 | The command of a lease event decodes to the destination and port of that event. |
| `UdpRuns.RunRepresents` | crates/flannel-core/src/backend/udp/proxy.rs:85-138 | After any interleaving of events and lookups the table is exactly the map the events describe, one entry per subnet. |
| `UdpRuns.LookupIsMapLookup` | crates/flannel-core/src/backend/udp/proxy.rs:116-126 | After any history a lookup answers nothing exactly if no installed subnet contains the address; it answers with public address and port of every containing subnet if and only if these agree, as disjoint subnets do. |
| `UdpRuns.LookupsDoNotInterfere` | crates/flannel-core/src/backend/udp/proxy.rs:116-126 | A lookup never changes a later answer for an address whose installed subnets agree. |
| `UdpRuns.LookupsInterfereExactly` | crates/flannel-core/src/backend/udp/proxy.rs:116-126 | Over all histories that install the same subnets, no lookup ever changes a later answer for an address if and only if its installed subnets agree. |
| `UdpRuns.Reachable` | crates/flannel-core/src/backend/udp/proxy.rs:91-102 | Every order of a table comes about, by adding its leases in that order. |
| `UdpRuns.OrderMatters` | crates/flannel-core/src/backend/udp/proxy.rs:116-126 | All orders of the table give the same answer for an address if and only if its installed subnets agree. |
| `UdpRuns.OverlapInterferes` | crates/flannel-core/src/backend/udp/proxy.rs:116-126 | After 10.0.0.0/16 and 10.0.0.0/8 were added with different addresses, looking up 10.1.0.0 changes the answer for 10.0.0.0. |
| `UdpWire.SwapIsBytes` | crates/flannel-core/src/backend/udp/network.rs:135-156 | In network order the bytes of an address are those of its dotted form from left to right. |
| `UdpWire.EventBytes` | crates/flannel-core/src/backend/udp/network.rs:118-156 | The twenty bytes of an added and of a removed lease, one by one. |
| `UdpWire.CommandWord` | crates/flannel-core/src/backend/udp/proxy.rs:276-315 | The first four bytes select set (1 0 0 0), delete (2 0 0 0) or stop (3 0 0 0). |
| `UdpWire.CommandEffect` | crates/flannel-core/src/backend/udp/proxy.rs:276-315 | Twenty bytes set or delete the route of the subnet they spell, with the next hop and port they spell. |
| `UdpWire.LookupByBytes` | crates/flannel-core/src/backend/udp/proxy.rs:116-126 | After any history, looking up the four bytes of a destination answers with the four bytes of the public address of the subnet that contains it. |
| `UdpForward.TunToUdp` | crates/flannel-core/src/backend/udp/proxy.rs:237-261 | One forwarding step: the packet of the table's next hop with its TTL decremented, or the unreachable reply, and the reordered table. |
| `UdpForward.Delivered` | crates/flannel-core/src/backend/udp/proxy.rs:237-261 | After any history a packet with a right header and at least two hops left goes to the public address of its subnet with TTL one less, a right check field and nothing else changed; on its last hop it goes nowhere. |
| `UdpForward.NotDelivered` | crates/flannel-core/src/backend/udp/proxy.rs:237-261 | A packet outside all installed subnets never goes to a peer; its sender gets net unreachable exactly if it is answerable. |
| `IpTables.Kernel.CleanAndBuild` | crates/flannel-core/src/trafficmngr/ip_tables.rs:236-264 | Chains and transaction are those of `BuildAll`: missing flannel chains created, a deletion before the append of each existing rule. |
| `IpTables.Kernel.Bootstrap` | crates/flannel-core/src/trafficmngr/ip_tables.rs:215-230 | The chains become the result of the transaction; on failure only created chains stay. |
| `IpTables.Kernel.EnsureIptables` | crates/flannel-core/src/trafficmngr/ip_tables.rs:153-171 | Nothing changes if all rules are present, else bootstrap. |
| `IpTables.Kernel.CheckRulesExist` | crates/flannel-core/src/trafficmngr/ip_tables.rs:199-211 | True exactly when `RulesExist` holds of the chains. |
| `IpTables.Kernel.BuildTeardown` | crates/flannel-core/src/trafficmngr/ip_tables.rs:272-289 | One deletion per rule that exists in an existing flannel chain. |
| `IpTables.Kernel.Teardown` | crates/flannel-core/src/trafficmngr/ip_tables.rs:267-294 | The chains become the result of those deletions. |
| `IpTablesOrder.BuildTargets` | crates/flannel-core/src/trafficmngr/ip_tables.rs:236-264 | Every operation of the transaction is on the chain of a wanted rule. |
| `IpTablesOrder.ChainOpsResult` | crates/flannel-core/src/trafficmngr/ip_tables.rs:254-261 | For any chain and any wanted list, delete-then-append leaves the chain followed by the wanted rules, less one first occurrence per wanted rule that was there. |
| `IpTablesOrder.OrderedExactly` | crates/flannel-core/src/trafficmngr/ip_tables.rs:254-261 | That is the foreign rules in their order and then the wanted ones if and only if every wanted rule that was there occurred as often as it is wanted. |
| `IpTablesOrder.ChainDeletionsResult` | crates/flannel-core/src/trafficmngr/ip_tables.rs:274-289 | Deletions alone go through exactly when the chain has enough of every rule. |
| `IpTablesOrder.BootstrapSucceeds` | crates/flannel-core/src/trafficmngr/ip_tables.rs:215-264 | Bootstrap succeeds if and only if the chain of every rule exists or is a flannel chain that gets created. |
| `IpTablesOrder.BootstrapOrders` | crates/flannel-core/src/trafficmngr/ip_tables.rs:215-264 | For any chains and any rule list, repeated rules included: exactly the missing flannel chains are added, every chain has the content above, and it is the foreign rules in their old order followed by the wanted rules in the wanted order if and only if the counts agreed. |
| `IpTablesOrder.BootstrapOfDistinct` | crates/flannel-core/src/trafficmngr/ip_tables.rs:215-264 | For rules without repetition the condition is that no wanted rule occurred twice, and each is there once. |
| `IpTablesOrder.BootstrapIsStable` | crates/flannel-core/src/trafficmngr/ip_tables.rs:215-264 | Where the counts agree, a second bootstrap of the whole state changes nothing. |
| `IpTablesOrder.UnchangedExactly` | crates/flannel-core/src/trafficmngr/ip_tables.rs:254-261 | A chain stays as it is if and only if its foreign rules come first and its wanted rules, taken alone, stay as they are. |
| `IpTablesOrder.BootstrapChangesNothing` | crates/flannel-core/src/trafficmngr/ip_tables.rs:215-264 | Bootstrap changes nothing if and only if no chain is missing and every chain is of that kind. |
| `IpTablesOrder.SurplusRotates` | crates/flannel-core/src/trafficmngr/ip_tables.rs:254-261 | For one wanted rule the first occurrence goes to the end: f, w, g, w becomes f, g, w, w. |
| `IpTablesOrder.RulesExistMeaning` | crates/flannel-core/src/trafficmngr/ip_tables.rs:199-211 | The presence loop means that every rule and its flannel chain exist. |
| `IpTablesOrder.EnsureOrders` | crates/flannel-core/src/trafficmngr/ip_tables.rs:153-171 | The periodic check succeeds exactly when bootstrap would, and leaves a chain in the wanted order if and only if it was before, or a rule of the list was missing and the counts agreed. |
| `IpTablesOrder.EnsureMissesOrder` | crates/flannel-core/src/trafficmngr/ip_tables.rs:161-167 | The masquerade rules, all there with the first MASQUERADE moved to the front, stay so; the chain then masquerades every packet from the cluster that is not multicast, marked ones and those for own pods included. |
| `IpTablesOrder.EnsureMasqueradesMarked` | crates/flannel-core/src/trafficmngr/ip_tables.rs:161-167 | A marked packet from 10.1.0.0 to 10.0.0.0 is masqueraded that should not be. |
| `IpTablesOrder.TeardownRemoves` | crates/flannel-core/src/trafficmngr/ip_tables.rs:267-294 | For any chains and any rule list, rules of missing flannel chains skipped: teardown succeeds if and only if every chain has its rules as often as the list, and leaves exactly the foreign rules if and only if just as often. |
| `IpTablesOrder.TeardownUndoesBootstrap` | crates/flannel-core/src/trafficmngr/ip_tables.rs:215-294 | Where the counts agree, teardown after bootstrap succeeds and leaves every chain its foreign rules in their old order. |
| `IpTablesOrder.MasqRulesFor` | crates/flannel-core/src/trafficmngr/iptables_rules.rs:35-92 | The flannel chain's wanted rules are the six after the jump, in order. |
| `IpTablesOrder.MasqRulesDistinct` | crates/flannel-core/src/trafficmngr/iptables_rules.rs:35-92 | The rules are pairwise different exactly when pod and cluster network differ. |
| `IpTablesOrder.MasqChainDecides` | crates/flannel-core/src/trafficmngr/iptables_rules.rs:35-92 | First match masquerades a packet if and only if it is unmarked, not for the node's pods, and leaves the cluster other than to multicast or inside the overlay, or enters it from outside. |
| `IpTablesOrder.MasqCounts` | crates/flannel-core/src/trafficmngr/iptables_rules.rs:35-92 | For different pod and cluster networks the counts agree exactly when no wanted rule occurs twice. |
| `IpTablesOrder.BootstrapMasquerades` | crates/flannel-core/src/trafficmngr/ip_tables.rs:215-264 | The same of the chain that bootstrap leaves, whatever order its rules were in before; the way into that chain is in `IpTablesWalk.PostroutingMasquerades`. |
| `IpTablesWalk.MasqRulesShape` | crates/flannel-core/src/trafficmngr/iptables_rules.rs:35-92 | Seven rules in nat: the unconditional jump from POSTROUTING, six in FLANNEL-POSTRTG, all with the comment; a rule has random-fully if and only if it masquerades and that is supported and not disabled. |
| `IpTablesWalk.FlannelChainAfter` | crates/flannel-core/src/trafficmngr/ip_tables.rs:215-264 | After bootstrap the flannel chain is the wanted six rules, each masquerading or returning. |
| `IpTablesWalk.PostroutingAfter` | crates/flannel-core/src/trafficmngr/ip_tables.rs:215-264 | After bootstrap POSTROUTING is its foreign rules and then the jump, and no chain but flannel's is new. |
| `IpTablesWalk.PostroutingMasquerades` | crates/flannel-core/src/trafficmngr/iptables_rules.rs:35-92 | Walking nat POSTROUTING with jumps and returns after bootstrap masquerades a packet if and only if it should be. |
| `IpNet.MaskedIsBlockStart` | crates/flannel-core/src/ip/ipnet.rs:125-155 | Masking is rounding down to the block of the prefix, for 32 and 128 bits. |
| `IpNet.SubnetSizeIsBlockSize` | crates/flannel-core/src/ip/ipnet.rs:115-121 | The subnet size is the number of addresses, reduced to the word. |
| `IpNet.ContainsIsInterval` | crates/flannel-core/src/ip/ipnet.rs:193-210 | Containment is the interval from network to broadcast address, and those are the ends of the block. |
| `IpNet.NetworkSameSet` | crates/flannel-core/src/ip/ipnet.rs:150-155 | The masked network contains the same addresses, and masking is idempotent. |
| `IpNet.OverlapsIsIntersection` | crates/flannel-core/src/ip/ipnet.rs:183-190 | Overlap is a common address. |
| `IpNet.ContainsCidrIsInclusion` | crates/flannel-core/src/ip/ip6net.rs:212-214 | Containment of networks is inclusion of address sets. |
| `IpNet.NestedOrDisjoint` | crates/flannel-core/src/ip/ipnet.rs:183-200 | Two networks are nested or disjoint; overlap is nesting one way or the other. |
| `IpNet.NextIsAdjacent` | crates/flannel-core/src/ip/ip6net.rs:176-181 | The next network starts after the broadcast address modulo the word, and is the network shifted by its size. |
| `IpNet.AlignedIsMultiple` | crates/flannel-core/src/ip/ip6net.rs:120-123 | The alignment test is divisibility by the subnet size. |
| `NetConfig.Config.CheckIpv4` | crates/flannel-core/src/subnet/config.rs:248-304 | Fields and error are those of `CheckFamily` over 32 bits, partial updates on failure included; what that decides is in `NetConfig.CheckDecides`. |
| `NetConfig.Config.CheckIpv6` | crates/flannel-core/src/subnet/config.rs:305-369 | The same over 128 bits, an absent bound counting as zero. |
| `NetConfig.Config.CheckNetworkConfig` | crates/flannel-core/src/subnet/config.rs:247-371 | IPv4 first; IPv6 only if it passed; disabled families untouched. |
| `NetConfig.CheckGuarantees` | crates/flannel-core/src/subnet/config.rs:247-371 | On success the subnet length is between prefix + 2 and 30 (126), both bounds are contained and aligned, given values are kept, and defaults are the second and the last subnet. |
| `NetConfig.LengthDecided` | crates/flannel-core/src/subnet/config.rs:256-275 | The length in use, or the problem with it, by numbers: as given from prefix + 2 to 30 (126); else 24 (64) up to prefix 22 (62) and prefix + 2 up to prefix 28 (124). |
| `NetConfig.CheckDecides` | crates/flannel-core/src/subnet/config.rs:247-371 | Which problem is reported, in order, and what has been filled in by then, by intervals and remainders. |
| `NetConfig.PassesExactly` | crates/flannel-core/src/subnet/config.rs:247-371 | A configuration passes if and only if the network is set, the given length is between prefix + 2 and 30 (126) or none is given and the prefix is at most 28 (124), and every given bound lies in the network on a subnet boundary. |
| `NetConfig.OrderedExactly` | crates/flannel-core/src/subnet/config.rs:280-303 | What passes has its first bound at most its last if and only if the last was defaulted, or was given and is not the network address (first bound defaulted) or not below the given first bound. |
| `NetConfig.DefaultGrid` | crates/flannel-core/src/ip/ipnet.rs:262-282 | With both bounds defaulted the aligned addresses between them are exactly 2^(len − prefix) − 1 ≥ 3 subnets, despite wrapping arithmetic. |
| `NetConfig.CheckIsIdempotent` | crates/flannel-core/src/subnet/config.rs:247-371 | Checking the filled-in configuration again succeeds and changes nothing. |
| `NetConfig.OrderNotChecked` | crates/flannel-core/src/subnet/config.rs:280-303 | Two configurations that pass with the last subnet below the first: both bounds given, and only the last given as the network address. |
| `KubeWatch.DecodeLines` | crates/flannel-core/src/kube/watch.rs:92-108 | Drains the complete lines, decodes them in order, stops at the first bad one; the rest stays buffered. |
| `KubeWatch.TakeTrailing` | crates/flannel-core/src/kube/watch.rs:111-117 | The rest without its CR and LF tail. |
| `KubeWatch.DecodeWatchStream` | crates/flannel-core/src/kube/watch.rs:31-51 | Events and error are those of `Feed` over the chunks. |
| `KubeWatch.SplitConcat` | crates/flannel-core/src/kube/watch.rs:92-108 | Splitting a stream into lines does not depend on where it is cut. |
| `KubeWatch.ChunkIndependence` | crates/flannel-core/src/kube/watch.rs:31-51 | For every cut: if all lines decode, the outcome is that of the uncut input; otherwise the events are a prefix of those before the first bad line and the error is that line's. |
| `KubeWatch.LossIsOneChunk` | crates/flannel-core/src/kube/watch.rs:34-42 | The events yielded before a bad line are exactly those of the chunks before the one that completes it. |
| `KubeWatch.LossExactly` | crates/flannel-core/src/kube/watch.rs:34-42 | The events before the bad line are those yielded followed by those of the good lines which that chunk completes, so nothing is lost if and only if there are none. |
| `KubeWatch.EventLost` | crates/flannel-core/src/kube/watch.rs:92-108 | For every decoder: a good frame followed by a bad one is yielded from two chunks and lost from one. |
| `KubeWatch.LetterLost` | crates/flannel-core/src/kube/watch.rs:92-108 | Such an input with two one-letter lines. |
| `KubeFrames.StreamYields` | crates/flannel-core/src/kube/watch.rs:31-51 | A stream of lines ended by LF or CR LF yields their events in order however it is cut, blank lines none; a last line without its newline is decoded as the tail, less its trailing CRs. |
| `KubeFrames.BreakYields` | crates/flannel-core/src/kube/watch.rs:31-51 | A stream that breaks yields the events of its complete lines and the transport error; the pending line is lost. |
| `KubeFrames.BadLineEnds` | crates/flannel-core/src/kube/watch.rs:92-108 | The first line that does not decode ends the stream with its error after a prefix of the events before it. |
| `Flags.FlagSet.Parse` | crates/flannel-core/src/flags.rs:219-282 | Flags, error and remaining arguments are those of `ParseArgs`, earlier assignments kept on failure. |
| `Flags.AcceptedIsFold` | crates/flannel-core/src/flags.rs:219-282 | An accepted list splits into a consumed prefix and the remaining suffix; scalars have their last value, slices all values in order, and a flag is marked exactly when it was given. |
| `Flags.SpellingStep` | crates/flannel-core/src/flags.rs:222-262 | Each of the four spellings assigns the value and continues after it. |
| `Flags.SpellingsAgree` | crates/flannel-core/src/flags.rs:219-282 | At any flag position, exchanging spellings of a registered non-bool flag changes neither values, error nor remaining arguments, for every value. |
| `FlagsGrammar.ItemStep` | crates/flannel-core/src/flags.rs:222-278 | The loop takes exactly the words of a written item: registered flags with a value of their kind, bool flags alone or with an equals sign, tolerated names with or without a word to skip. |
| `FlagsGrammar.WrittenIsAccepted` | crates/flannel-core/src/flags.rs:219-282 | A list written by the grammar is accepted with its own pairs and remaining words. |
| `FlagsGrammar.AcceptedLanguage` | crates/flannel-core/src/flags.rs:219-282 | A list is accepted if and only if the grammar writes it, and however it is read its pairs and remaining words are the parser's. |
| `FlagErrors.FaultyEnds` | crates/flannel-core/src/flags.rs:222-278 | A refused item ends the parse with its error and the flags as they were; only help sets the remaining words. |
| `FlagErrors.RejectedLanguage` | crates/flannel-core/src/flags.rs:219-282 | An error is reported if and only if the list is items that fit followed by words with that error: bad dashes, unknown name, help, no value left, or a value of the wrong kind. |
| `FlagValues.AccumulateIsNumber` | crates/flannel-core/src/flags.rs:94-121 | Digits accumulated from the left are the sum of digits times powers of the radix; the first of bad digit and overflow decides the error. |
| `FlagValues.ParseIntOf` | crates/flannel-core/src/flags.rs:94-121 | The number of every sign, mark (0x, 0o, 0b, a bare 0, none) and digits, as such a sum; a sign may also follow the mark. |
| `FlagValues.ParseIntExactly` | crates/flannel-core/src/flags.rs:94-121 | A text is accepted as n if and only if it is such a text of n and n has 64 bits. |
| `FlagValues.LateSignAccepted` | crates/flannel-core/src/flags.rs:94-121 | `0x-5` is read as -5. |
| `FlagValues.DecimalIsRead` | crates/flannel-core/src/flags.rs:94-121 | The decimal text of every 64-bit number, with any sign, reads as that number; beyond that it is out of range. |
| `FlagValues.BoolAlone` | crates/flannel-core/src/flags.rs:222-262 | A bool flag alone becomes true. |
| `FlagValues.BoolGiven` | crates/flannel-core/src/flags.rs:82-91 | Six words mean true, six mean false, any other is a syntax error. |
| `FlagValues.IntGiven` | crates/flannel-core/src/flags.rs:222-262 | An integer flag given a decimal text in any spelling has that number, or the range error. |
| `SubnetEnv.IpRoundTrip` | crates/flannel-core/src/ip/ipnet.rs:90-94 | A dotted quad reads back. |
| `SubnetEnv.NetRoundTrip` | crates/flannel-core/src/ip/ipnet.rs:213-239 | A printed network reads back masked. |
| `SubnetEnv.SubnetFileText` | crates/flannel-core/src/subnet/writefile.rs:36-57 | The text has the lines of the enabled families and the last two, with the lease addresses incremented. |
| `SubnetEnv.ShownText` | crates/flannel-core/src/ip/ipnet.rs:90-94 | An address is its four octets in decimal with dots, a network that and its prefix length. |
| `SubnetEnv.WrittenText` | crates/flannel-core/src/subnet/writefile.rs:36-57 | The file line by line, with its literal keys and the subnet address plus one. |
| `SubnetEnv.FirstAddressMasksBack` | crates/flannel-core/src/ip/ip6net.rs:184-186 | For both widths the incremented address masks back to the subnet if and only if the subnet is not a single address. |
| `SubnetEnv.SingleAddressLost` | crates/flannel-core/src/subnet/writefile.rs:38-46 | For every address, the first address of its single-address subnet masks to another subnet. |
| `SubnetEnv.ParseSubnetEnv` | crates/flannel-cni/src/netconf.rs:95-125 | The loop is the fold of the line function, stopping at the first bad value. |
| `SubnetEnv.ReadEnv` | crates/flanneld/src/subnetfile.rs:60-79 | The map is the fold over the lines, comments and malformed lines skipped. |
| `SubnetEnv.ReadCidrsFromSubnetFile` | crates/flanneld/src/subnetfile.rs:83-107 | The networks of the comma-separated value that parse, in order. |
| `SubnetEnv.EnvOfFile` | crates/flannel-cni/src/netconf.rs:95-125 | Reading a written file is storing its fields in order, errors included. |
| `SubnetEnv.CniRoundTrip` | crates/flannel-cni/src/netconf.rs:95-125 | The CNI reader gets back, of each enabled family, the network always and the lease subnet if and only if it is not a single address, the MTU and the flag, and nothing of a disabled family. |
| `SubnetEnv.DaemonRoundTrip` | crates/flanneld/src/subnetfile.rs:110-124 | The daemon's reader gets back the IPv4 network always, and the lease subnet under the same condition; the zero network if IPv4 is disabled. |

## Left out

- Sockets, netlink, `poll`, HTTP, file writes and processes: a stream is a byte
  sequence, the kernel's routes a map from destination to one route, iptables a map
  from chain to rules.
- Netlink and iptables calls that fail for other reasons than the state: an add fails
  only on a taken destination, a delete only without an exact match, probing a rule
  never fails.
- Interleaving inside one route check, which reads the list and the table at different
  times; a pass is one step.
- RouteFaults.RunLoose: outsiders delete routes and do not add any.
- RouteAgreement.EndToEnd: leases of the node's own family flags and of the host-gw type,
  destinations the node did not use before, and in dual stack no two leases that share
  the subnet of one family only; what resets may change is exact in
  `RouteAgreement.EndToEndExactly`.
- RouteAgreement.EndToEndWithFaults: outsiders delete routes of other nodes; they add none and leave
  the initial table alone.
- WatchRoutes.WatchIntoRoutes: under the conditions of EndToEnd, and with the batches handled after
  the watch has sent them rather than while it runs; no check comes in between.
- LeaseRuns.RunMirrors: all leases carry the family flags of the own lease; the one-sided
  comparison gives no equivalence relation otherwise.
- ViciLanguage.Connection.ReadPacket: names are bytes, so the lossy UTF-8 decoding of
  invalid names is not captured; the bytes a failed read at the end of the stream
  consumes are taken to be all of them.
- UtcDate.NextDay: the date is a triple; its `YYYY-MM-DD` text is not modelled, nor the
  64-bit range of timestamps.
- ProxyPacket.ComputeCksum: sums are unbounded; `ProxyPacket.SumFits` shows that 64 bits suffice.
- UdpProxy.ProcessCmd: starts after the receive, whose outcome is a parameter.
- IpTables.Kernel.Bootstrap: a failed restore changes nothing in any table, while the real tool
  commits table by table; rules are structured matches, not command-line words; the
  action is always append.
- IpTablesOrder.BootstrapMasquerades: the flannel chain holds no foreign rule and the counts agree;
  of the forward rules only the order is proved, by `IpTablesOrder.BootstrapOrders`.
- IpTablesWalk.PostroutingMasquerades: for packets that no foreign rule of POSTROUTING matches,
  at most one earlier copy of the jump, and a flannel chain as above; a target is a chain
  only if the table has one of that name.
- UdpForward.TunToUdp: starts after a receive of at least 20 bytes and ends before the send.
- KubeWatch.DecodeWatchStream: decoding a frame (UTF-8 and JSON) is a parameter, one for complete
  lines and one for the tail.
- Flags.FlagSet.Parse: values from the environment, usage and help text.
- SubnetEnv.CniRoundTrip: the IPv6 text form and its parser are parameters, with the law that the
  text has no spaces and reads back masked; trimming knows ASCII white space only; an
  IPv4 address of all ones wraps when incremented, where a debug build would panic.
- SubnetEnv.DaemonRoundTrip: the daemon's IPv6 readers, which are its IPv4 ones over the other text form.
- NetConfig.CheckGuarantees: like CheckDecides and PassesExactly, for masked networks, as the
  configuration parser produces them.
- The single-lease watch, signing and HMAC, xfrm layouts, charon process control, vxlan,
  wireguard, ipip, interface matching, the Kubernetes subnet manager, CNI delegation and
  daemon orchestration: plumbing or easy claims beside the above.
- The nftables manager: its fourth rule differs from the iptables one, so no equivalence holds.
