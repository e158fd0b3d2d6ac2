# A verified model of ecmh

ecmh relays IPv6 multicast between network interfaces. It learns from MLDv1 and MLDv2 messages
which interface wants which group from which source, keeps that in a three-level linked-list
database, forwards data packets accordingly, and re-originates reports on its other interfaces so
that neighbouring hubs learn of the demand.

This project models the default Linux build (MLDv2 support on, no BPF) and proves what the daemon
does over whole histories, over networks of hubs, and on the wire. Check it with
`dafny verify dfyconfig.toml`.

How the files fit together:

- `Database.dfy` gives the database as a value and its three kinds of step: `Join` (an MLDv1 report
  or one MLDv2 record), `Leave` (an MLDv1 reduction) and `Expire` (the timeout).
- `LinkList.dfy`, `GroupInterface.dfy`, `Groups.dfy`, `Hub.dfy` are the heap: doubly linked lists with
  the overloaded counter, nested three deep. Every operation, the triple nested deleting walk of the
  timeout included, is proved to keep all lists well formed and to make exactly the value-level step.
- `Invariant.dfy` has the database invariant and shows that the nested lists behave as one flat table.
  `Forwarding.dfy`, `Forwarder.dfy` are the forwarder as a value and on the heap.
- `Runs.dfy`, `Messages.dfy` are the theorems over histories of steps and of messages.
- `Handlers.dfy`, `Wire.dfy`, `Daemon.dfy`, `ExtHeaders.dfy` are the message handlers, down to bytes.
- `Ingress.dfy` turns the bytes of a packet into such a message, and reads back what a hub builds.
- `Reporting.dfy`, `Rounds.dfy` say which reports and queries a hub sends, and on which interfaces a packet
  really leaves.
- `MainLoop.dfy` is the daemon's loop over events, on the heap: what it delivers and what it announces.
- `LoopLaws.dfy` says of each event what it does to the interfaces and which reports and queries it leads
  to, without the functions the loop is defined by.
- `ReportFlood.dfy`, `ReportReach.dfy` are networks of hubs: the flood of reports stops, and reaches every
  connected hub when hosts ask for something and links deliver what hubs emit.
- `DataFlood.dfy`, `DeliveryTree.dfy`: the flood of data stops, and follows the tree that a flood of MLDv1
  reports leaves behind to the hosts that asked.
- `FloodExample.dfy` is a small network that meets all assumptions of the theorems on reach and tree.
- `ReportSplit.dfy` splits a report over packets; `ReportTransfer.dfy` delivers them to the next hub and
  shows which demand has moved one hop on.
- `Checksum.dfy`, `Interfaces.dfy` are the internet checksum, the interface table and the MLD version machine.

Conventions. Addresses are 128-bit numbers. There is one clock, which does not go back; it is read once
per report, record or timeout. Allocation succeeds. A send reports success, failure or "no such device",
and the last destroys that interface. Lists carry ghost fields (`nodes`, `contents`, `view`, `repr`) that
`Valid()` ties to the real fields.

Where the code and the words beside it differ, the model follows the code:

- `lastforward` is set by every report, not only by forwarded ones, so a group reported often enough is
  forwarded once and never again (`Runs.ForwardAgainExactly`, `Runs.SilentExactly`, `Runs.ForwardingStarves`,
  and a run in `Runs.StarvingRun`).
- Subscriptions that expire leave their group-interface entry behind; only a reduction marks it for
  removal (`Runs.TimeoutRemoves`, `Runs.ExpiryAloneKeeps`, and an empty entry that stays in
  `Runs.EmptyEntryStays`).
- An MLDv1 packet never lowers a version already known (`Interfaces.MldV1TakesEffect`,
  `Interfaces.NoDowngrade`, and two packets in `Interfaces.SecondPacketIgnored`).
- Auxiliary data in a record is skipped in bytes, not in words (`Wire.SkipExactly`, `Wire.AuxDiverts`, and any
  one word of such data in `Wire.AuxMisleads`).
- The "new" flag of one record carries over to link-local records after it (`Handlers.BroadcastExactly`, and
  such a report in `Handlers.LocalGroupBroadcast`).
- A re-broadcast of demand that only excludes sources puts nothing on a link where only MLDv2 is spoken, and
  still silences the hub for 125 seconds (`Reporting.EmissionExactly`, `ReportReach.FirstReportEmits`, and
  such a report in `ReportReach.ExclusionSilences`).
- The duplicate check of the report builder looks at the slot after the last source, so it finds a source
  exactly when the previous packet has it at the same place, and a report that fits one packet repeats its
  duplicates (`ReportSplit.SplitReport`, `ReportSplit.OnePacket`, and one source twice in
  `ReportSplit.Repeated`).
- An Authentication Header is stepped over in 8-byte units, not in the 4-byte units of section 2.2 of RFC 4302
  (`ExtHeaders.AuthSkip`).
- A report is called ignored when a record claims too many sources, but the group of that record enters the
  database and is not re-broadcast for 125 seconds (`Wire.BadRecord`, `Messages.OverlongRecord`).
- The builder's test for room leaves out the header of a further record, so a group that many interfaces want
  from every source gets more records than the buffer holds (`ReportSplit.SplitReport`, where the result
  `TooLong` has its exact condition for such a group).

## Model

| member | source | states |
|---|---|---|
| `LinkList.List.Add` | src/linklist.c:46-62 | head, tail and both link directions still describe one sequence of distinct nodes, extended at the end; a negative counter restarts at 1 |
| `LinkList.List.DeleteNode` | src/linklist.c:96-104 | exactly the given node leaves the sequence, the remaining nodes are linked both ways, the counter drops by one |
| `LinkList.List.DeleteAll` | src/linklist.c:65-78 | the list ends empty and well formed with counter 0, and the destructor gets every payload once, in list order |
| `LinkList.List.Current` | src/linklist.h:47-54 | in a walk that deletes as it goes, the saved successor is still the next node of the original list |
| `LinkList.List.DeleteCurrent` | src/linklist.h:47-54 | deleting the node just visited keeps the walk in step: the kept prefix followed by the unvisited suffix |
| `GroupInterface.GrpIntNode.constructor` | src/grpint.c:8-23 | a new entry has no sources and counter 0 |
| `GroupInterface.GrpIntNode.Find` | src/subscr.c:52-62 | finds the first node of the source, or null exactly when there is none |
| `GroupInterface.GrpIntNode.Refresh` | src/grpint.c:54-99 | on the heap, exactly the refresh of the value: no-op for "exclude all", else update in place or append |
| `GroupInterface.GrpIntNode.Unsubscribe` | src/ecmh.c:1590-1607 | the `::` node alone is removed, a list this empties gets counter -2, and the result says whether it did |
| `GroupInterface.GrpIntNode.Expire` | src/ecmh.c:2562-2581 | the inner deleting walk keeps, in order, exactly the subscriptions at most 250 seconds old, with the counter down by the number removed |
| `GroupInterface.GrpIntNode.Included` | src/ecmh.c:1078-1084 | the innermost walk of the report builder yields the sources in INCLUDE mode, in list order |
| `Groups.GroupNode.Find` | src/grpint.c:36-46 | finds the entry of the interface, or null exactly when there is none |
| `Groups.GroupNode.GetInt` | src/groups.c:114-125 | find-or-create of the interface entry: the first match, else one new empty entry at the end |
| `Groups.GroupNode.Join` | src/ecmh.c:1700-1744 | one refresh per named source, in order, on the interface's entry; the other entries and all links are untouched |
| `Groups.GroupNode.Expire` | src/ecmh.c:2558-2595 | the middle walk removes exactly the entries whose counter is at most -2 after their own expiry |
| `Groups.GroupNode.Destroy` | src/groups.c:36-54 | the list is emptied and every entry that was on it is destroyed, each ending with no source |
| `Groups.GroupNode.Reported` | src/ecmh.c:1069-1084 | the two inner walks of the report builder yield the sources the other interfaces include, in list order |
| `Hub.Conf.Find` | src/groups.c:56-66 | finds the group, or null exactly when there is none |
| `Hub.Conf.Join` | src/groups.c:73-126 | the heap makes the find-or-create and refresh step, and the answer "new" is that of the value before the step |
| `Hub.Conf.Leave` | src/ecmh.c:1571-1607 | the heap makes the reduction step, and the result says whether it took the last source |
| `Hub.Conf.Reports` | src/ecmh.c:1053-1084 | the walk finds out, for one group or for all, whether an interface has anything to be told |
| `Hub.Conf.Members` | src/ecmh.c:1815-1828 | the nested walk that answers an MLDv1 query yields the groups with an entry for the interface, in order |
| `Hub.Conf.Timeout` | src/ecmh.c:2554-2606 | the triple nested in-place traversal keeps every list well formed and refines the pure nested filter |
| `Invariant.RefreshAllOk` | src/grpint.c:54-99 | any list of refreshes keeps sources distinct, modes valid, `::` INCLUDE and the counter exact |
| `Invariant.ExpireGroupsOk` | src/ecmh.c:2554-2606 | the timeout keeps the invariant at all three levels |
| `Invariant.ApplyOk` | src/ecmh.c:1473-1757 | every step keeps the database invariant: distinct keys at each level, no local group, valid modes, `::` always INCLUDE, counter exact or 0 or -2 when empty, no group without interfaces |
| `Invariant.EntryAfter` | src/ecmh.c:2554-2606 | what a step does to the row of one group and interface depends on that row alone |
| `Invariant.LookupAfter` | src/grpint.c:54-99 | what a step does to one source depends on that source's row alone: the last effective write wins, a reduction clears `::`, a timeout drops what is stale |
| `Invariant.RefreshLookup` | src/grpint.c:54-99 | a refresh gives exactly the source named its mode and the time, unless it would exclude `::`, and leaves every other source as it was |
| `Invariant.TimeoutMeaning` | src/ecmh.c:2562-2581 | the timeout keeps a subscription exactly as long as it is at most 250 seconds old, and changes no other row |
| `Forwarding.ForwardExact` | src/ecmh.c:1914-1958 | one copy to each live interface other than the arrival one with an INCLUDE entry for `::` or the source, none elsewhere, whatever the list order and EXCLUDE entries |
| `Forwarder.Serve` | src/ecmh.c:1922-1956 | the inner walk sends at most one copy, exactly when the interface is live and some entry matches |
| `Forwarder.Multicast` | src/ecmh.c:1853-1959 | on the heap, the copies are those of `Forward` on the interfaces live at the start, even when sends destroy interfaces in mid-loop; only those interfaces disappear |
| `Runs.RunInv` | src/ecmh.c:2554-2606 | every database reachable by any history satisfies the invariant |
| `Runs.History` | src/ecmh.c:1700-1744 | an entry is in the database if and only if some earlier report wrote it and nothing since overwrote, revoked or expired it |
| `Runs.Provenance` | src/ecmh.c:1914-1958 | a copy of (S,G) goes out on I if and only if an earlier INCLUDE-producing report on I for G named S or `::` and still stands |
| `Runs.Freshness` | src/ecmh.c:2562-2581 | the report behind a forwarded copy is at most 250 seconds older than any timeout so far |
| `Runs.KeepsAny` | src/grpint.c:54-99 | a request for `::` survives every continuation without a reduction or a late timeout, in INCLUDE mode |
| `Runs.Retention` | src/ecmh.c:1473-1533 | after an MLDv1 report, every routable packet from elsewhere reaches the interface, whatever other steps interleave |
| `Runs.ExclusionWrites` | src/grpint.c:87-95 | excluding a source other than `::` gives it the mode EXCLUDE and the time of the record |
| `Runs.ExclusionStops` | src/grpint.c:87-95 | after a record that excludes a source, as long as no later record on the interface names it and `::` is not subscribed there, no copy of its packets goes out |
| `Runs.MarkMeaning` | src/ecmh.c:1590-1607 | the counter is -2 if and only if a reduction took the last source and nothing was added and no timeout came since |
| `Runs.TimeoutRemoves` | src/ecmh.c:2583-2604 | a timeout removes an entry if and only if a reduction emptied it and no report came in between |
| `Runs.ReportSaves` | src/linklist.c:60-61 | a report between the reduction and the timeout saves the entry with an exact counter |
| `Runs.ExpiryAloneKeeps` | src/ecmh.c:2583-2593 | without a reduction an entry is never collected, however many timeouts pass |
| `Runs.EmptyEntryStays` | src/ecmh.c:2583-2593 | one report, and a timeout 1000 seconds later: the entry is there, with no source and counter 0 |
| `Runs.LastForwardMeaning` | src/groups.c:109-112 | `lastforward` is the time of the last report of any kind for the group |
| `Runs.NewExactly` | src/groups.c:79-112 | groupint_get answers "new" if and only if the group is absent or no report for it was seen for 125 seconds |
| `Runs.RateLimit` | src/groups.c:97-112 | while the group stays in the database, an answer "new" is at least 125 seconds after every earlier report for it |
| `Runs.ForwardAgainExactly` | src/groups.c:97-112 | 125 seconds after a forwarding, the group is forwarded again if and only if no other report came in the last 125 seconds |
| `Runs.SilentExactly` | src/groups.c:79-112 | no report after a given one is answered "new" if and only if each finds the group present and follows another within 125 seconds |
| `Runs.ForwardingStarves` | src/groups.c:97-112 | in every run: after a report on an interface that no reduction follows there, if each report comes less than 125 seconds after another, the group stays and none of them is answered "new" |
| `Runs.StarvingRun` | src/groups.c:97-112 | such a run: a report every 100 seconds |
| `Handlers.RecordMeaning` | src/ecmh.c:1700-1744 | what each type of MLDv2 record, 1 to 6 by its number, does to each source: 2, 4 and 6 without sources ask for all and with sources exclude each but `::`; 1, 3 and 5 without sources change nothing and with sources include each |
| `Handlers.RecordsFold` | src/ecmh.c:1652-1754 | the database after a report is the left fold of one step per routable record |
| `Handlers.BroadcastExactly` | src/ecmh.c:1687-1749 | a record is re-broadcast if and only if it was answered "new", or follows such a record with only local groups in between; the reports are made from the database the record left |
| `Handlers.LocalGroupBroadcast` | src/ecmh.c:1687-1749 | two records for which a link-local group is re-broadcast |
| `Messages.MessagesAreRuns` | src/ecmh.c:2064-2090 | a history of messages, malformed MLDv2 payloads included, is a history of valid steps with the same database |
| `Messages.MessageRetention` | src/ecmh.c:1473-1533 | retention stated for messages and payload bytes |
| `Messages.MessageMeaning` | src/ecmh.c:1473-1757 | every message, for every source of every group on every interface: the row is what the message says by the numbers of its records, or gone after a reduction or 250 seconds at a timeout, or as it was |
| `Messages.MessageHistory` | src/ecmh.c:1473-1757 | a source has a mode and a time if and only if a message that gave it these still stands |
| `Messages.ForwardByBytes` | src/ecmh.c:1861-1958 | a copy goes to exactly the other live interfaces that include `::` or the source, if the bytes of the addresses pass the six refusals |
| `Messages.MessageProvenance` | src/ecmh.c:1914-1958 | a packet goes out on an interface if and only if its addresses are admitted and a message there that included its source or `::` still stands |
| `Messages.OverlongRecord` | src/ecmh.c:1687-1722 | the group of a record that claims too many sources is created and taken as just forwarded, though no report is sent |
| `Wire.WalkInverts` | src/ecmh.c:1641-1754 | for every list of records of types 1 to 6 (auxiliary data in the last one at most) the walk visits exactly those records and sources in order and ends inside the payload |
| `Wire.ParseStep` | src/ecmh.c:1652-1752 | one round of the walk on an encoded record recovers it and goes on behind it |
| `Wire.BadRecord` | src/ecmh.c:1673-1722 | a record of a type other than 1 to 6, or with more sources than the payload holds, ends the walk; the records in front of it are visited |
| `Wire.TooManyClaimed` | src/ecmh.c:1641-1645 | a report that claims more records than it has room for is ignored as a whole |
| `Wire.ClassesByBytes` | src/ecmh.c:1870-1875 | the address classes by the bytes of the address: ff00::/8, its scopes 1 and 2, fe80::/10 |
| `Wire.SkipExactly` | src/ecmh.c:1751-1752 | the stepping rule of the walk gives the position of every record if and only if no record but the last has auxiliary data |
| `Wire.AuxDiverts` | src/ecmh.c:1751-1752 | with the first auxiliary data in record m, not the last one, the walk of the held bytes visits records 0 to m and goes on three bytes per word before the next record starts |
| `Wire.AuxMisleads` | src/ecmh.c:1751-1752 | any one word of auxiliary data before a second record loses that record: the walk stops with an unknown type, or with too many sources for a group that was never sent |
| `Daemon.Mld1Report` | src/ecmh.c:1473-1533 | the handler makes one `Join` of `::` for a routable group, nothing otherwise, and exactly when the group is new makes a round of reports, which may destroy interfaces |
| `Daemon.Mld1Reduction` | src/ecmh.c:1535-1610 | the handler makes one `Leave` for a routable group, nothing otherwise; when that takes the last source a query goes out on the link, not upstream, and may destroy it |
| `Daemon.ReadSources` | src/ecmh.c:1724-1743 | the source loop yields one write per source, in order |
| `Daemon.Mld2Report` | src/ecmh.c:1613-1757 | for every payload, database and rounds of reports are those of the records the walk visits, each round made as its record is met, with the bare group lookup of a record it gives up on |
| `Daemon.SendReportAll` | src/ecmh.c:1292-1316 | reports leave on exactly the other live interfaces where there is one to send, lowest first, even as sends destroy interfaces, and only those interfaces disappear |
| `Daemon.SendReport` | src/ecmh.c:1265-1289 | a packet leaves if and only if MLDv1 is used on the interface, or MLDv2 is and there is a source to report |
| `Daemon.SendQueryAll` | src/ecmh.c:2491-2517 | queries leave on exactly the live interfaces that are not upstream, even as sends destroy interfaces |
| `Daemon.MldQuery` | src/ecmh.c:1761-1845 | the query sets the version and is answered group by group or with one report, and the interface is lost exactly when a send finds it gone |
| `MainLoop.FindOrCreate` | src/ecmh.c:2649-2662 | the lookup succeeds exactly when the interface is there or its device is no loopback and has an MTU of at least 1280; it is then created with that MTU, the upstream flag and no version |
| `MainLoop.Update` | src/ecmh.c:240-566 | the rescan before a timeout finds or creates the interfaces it comes across, one after the other |
| `MainLoop.HandleEvent` | src/ecmh.c:2614-2677 | lists and interface table make exactly the step of the message, with every report and query it leads to and every interface these destroy, or the message is dropped when its interface cannot be found or created |
| `MainLoop.Serve` | src/ecmh.c:3051-3072 | after any reports, reductions, queries, data packets and timeouts, and any answers of the system, the heap holds the database and the interfaces the history calls for, and every packet, report and query went where it says |
| `MainLoop.HandledDb` | src/ecmh.c:2614-2677 | the database of the loop is that of the messages whose interface was found, so every theorem on histories is one about the loop |
| `MainLoop.SubscribersServed` | src/ecmh.c:1473-1533 | of what the loop sends: after an MLDv1 report, with no reduction and no timeout more than 250 seconds later, a packet from another interface with admitted addresses is sent there while it is live |
| `MainLoop.OnlySubscribersServed` | src/ecmh.c:1914-1958 | of what the loop sends: a packet goes out on another live interface if and only if its addresses are admitted and a message there for its source or `::` still stands |
| `MainLoop.DemandAnnounced` | src/ecmh.c:1527-1530 | of what the loop sends: after any events, an MLDv1 report for a new group is followed by a report on exactly the other live interfaces, whatever their MLD versions, and for a group that is not new by none |
| `LoopLaws.KnownExactly` | src/interfaces.c:165-340 | a lookup creates an unknown interface exactly when its device suits, and changes nothing else |
| `LoopLaws.RescanExactly` | src/ecmh.c:240-566 | a rescan keeps every interface as it is and creates each it comes across whose device suits, as the first such lookup says |
| `LoopLaws.TableAfter` | src/ecmh.c:2614-2677 | after any events: which messages are handled, which interfaces are left (exactly those on which no send found the device gone), and that only the version of the arrival interface changed, as the kind of message says |
| `LoopLaws.TimeoutQueries` | src/ecmh.c:2491-2517 | at a timeout queries leave on exactly the interfaces that are not upstream |
| `LoopLaws.ReductionQueries` | src/ecmh.c:1590-1607 | after a reduction a query leaves on the link if and only if the group is of wider scope, `::` was the only source there, and the link is not upstream |
| `LoopLaws.QueryMeaning` | src/ecmh.c:1795-1840 | a query on a link of version 1 leads to one report for each group with an entry there, and on one of version 2 to one report for all exactly when another interface includes a source |
| `LoopLaws.ReportAnnounced` | src/ecmh.c:1746-1749 | each re-broadcast of an MLDv2 report leaves on exactly the other interfaces still there on which MLDv1 is used or for which another interface includes a source |
| `LoopLaws.ServedRun` | src/ecmh.c:2649-2676 | a run in which two unknown interfaces are created, a report and a packet are handled, and the packet is sent |
| `ExtHeaders.SkipHeaders` | src/ecmh.c:2122-2149 | the loop ends for every packet and computes the walk, 16-bit subtraction included |
| `ExtHeaders.WalkInverts` | src/ecmh.c:2122-2149 | for every chain of hop-by-hop, routing and destination headers the walk ends at the payload with its type and length |
| `ExtHeaders.WalkChain` | src/ecmh.c:2129-2149 | position plus remaining length stays the packet length, so the subtraction never wraps |
| `ExtHeaders.AuthSkip` | src/ecmh.c:2122-2149 | an Authentication Header is stepped over in 8-byte units, which ends where it ends if and only if its length field is 0 |
| `ExtHeaders.BeyondPacket` | src/ecmh.c:2142-2147 | a header that reaches beyond the packet makes it corrupt |
| `ReportFlood.ReceiveSettles` | src/groups.c:73-126 | within 125 seconds a report that names the group settles a hub, a settled hub stays silent, and one message, whatever other groups its records name, causes at most one re-broadcast of the group |
| `ReportFlood.BroadcastsOnce` | src/ecmh.c:1746-1749 | in any network, each hub re-broadcasts the group at most once in the window |
| `ReportFlood.FloodStops` | src/ecmh.c:1527-1530 | deliveries are bounded by messages in flight and injected plus one broadcast per hub, on any topology |
| `Reporting.ReportedExactly` | src/ecmh.c:1069-1084 | a source is reported on an interface if and only if another interface includes it |
| `Reporting.EmissionExactly` | src/ecmh.c:1234-1240 | a round of reports leaves nothing on an interface if and only if MLDv1 is not used there and no other interface includes any source |
| `ReportReach.AskingEmits` | src/ecmh.c:1746-1749 | a hub that has not heard of the group lately emits a report on every other interface if the first record for the group asks for something |
| `ReportReach.FirstReportEmits` | src/ecmh.c:1078-1084 | the first report for a group, a single record, goes out again on an MLDv2-only interface if and only if the record includes sources or excludes none |
| `ReportReach.ExclusionSilences` | src/groups.c:97-112 | IS_EXCLUDE with one source: re-broadcast, nothing emitted, and no re-broadcast of the group for the next 125 seconds |
| `ReportReach.FloodReaches` | src/ecmh.c:1292-1316 | when hosts ask for something and what hubs emit is delivered, then after the reports have drained every hub on every route from a hub that handled one has the group |
| `DataFlood.OutputsBound` | src/ecmh.c:2160-2182 | each copy leaves with hop limit exactly one less and at least 1, on the echo path and the ordinary one, at most one per live interface and link end |
| `DataFlood.ExceededExactly` | src/ecmh.c:2023-2048 | the hop limit has run out exactly for foreign packets to a group that arrive with 0 or 1, and only an echo request is answered |
| `DataFlood.FloodStops` | src/ecmh.c:2160-2182 | in any network, cyclic or not, with hubs in any states, the arrivals a packet leads to are bounded |
| `DataFlood.ChainFalls` | src/ecmh.c:2023-2056 | a forwarding chain that starts with hop limit h is forwarded fewer than h times |
| `DeliveryTree.RunGrows` | src/ecmh.c:1473-1533 | every run of MLDv1 reports leaves a tree: each hub it reached holds an INCLUDE `::` entry on an interface that leads to the hosts, or to a hub of smaller rank that asked elsewhere |
| `DeliveryTree.DataClimbs` | src/ecmh.c:1914-1958 | data that arrives at a hub of the tree from elsewhere is forwarded hub by hub, at most as often as the rank says, onto a link of the hosts |
| `DeliveryTree.SubscribersReached` | src/ecmh.c:1914-1958 | after a drained flood of MLDv1 reports, a data packet at any hub on a route, with hop limit above the number of hubs, gets onto a link of the hosts, unless it came over the link the hub asked on |
| `FloodExample.AssumptionsMet` | src/ecmh.c:1473-1533 | every assumption of the reach and tree theorems holds of a run with a host, its hub and a second hub, and the flood reaches both |
| `ReportSplit.SplitReport` | src/ecmh.c:1053-1254 | for every list of sources each packet fits the MTU and asks only for what was reported, even if a send destroys the interface in mid-report; a clean report asks for `::` exactly if it was reported, and without `::` its lists concatenate to the sources, all but the last full; the duplicate check matches if and only if some source equals the one a packet earlier at the same place; for a group wanted from all sources only, the buffer overflows if and only if the records exceed the MTU; the "MTU too small" branch is dead |
| `ReportSplit.OnePacket` | src/ecmh.c:1110-1128 | a report that fits one packet is one record with the sources as they are, so no source is listed twice if and only if no two interfaces asked for the same |
| `ReportSplit.Repeated` | src/ecmh.c:1110-1128 | a source two interfaces ask for is listed twice |
| `ReportTransfer.EncodeSize` | src/ecmh.c:1242-1251 | the size the builder compares with the MTU is the size of the encoded packet, whatever its records |
| `ReportTransfer.CleanReport` | src/ecmh.c:1053-1254 | a clean report conveys its sources: everything if `::` is one of them, otherwise exactly the sources; and all its counts fit their fields |
| `ReportTransfer.Transfer` | src/ecmh.c:1700-1744 | a hub that receives the packets subscribes the arrival interface to exactly what they ask for and changes no other entry |
| `ReportTransfer.DemandPropagates` | src/ecmh.c:1746-1749 | after the report, the next hub sends a packet over the link if and only if another interface of the reporting hub includes its source or `::`, or the next hub did so before |
| `ReportTransfer.PassedOnIsDemanded` | src/ecmh.c:1914-1958 | a packet the reporting hub would pass on to any interface of its own is one it demands |
| `Ingress.PacketReadBack` | src/ecmh.c:2096-2149 | for every chain of hop-by-hop, routing and destination headers, reading recovers addresses, hop limit, kind and payload |
| `Ingress.ReportArrives` | src/ecmh.c:1011-1045 | the MLDv2 packet a hub builds has the size its builder allowed for, becomes the event with its records at the next hub, and handling that event is what the transfer theorem is about |
| `Ingress.Report1Arrives` | src/ecmh.c:902-961 | the MLDv1 packet a hub builds becomes the report for its group at the next hub |
| `Ingress.DataArrives` | src/ecmh.c:2096-2182 | a data packet reaches the forwarder if and only if its destination is multicast, it is not the hub's own and its hop limit is at least 2 |
| `Ingress.IcmpArrives` | src/ecmh.c:1971-2090 | every ICMPv6 packet by the number of its type: 128 goes the way of data; 130, 131, 132, 143 and 206 from a link-local source are the MLD messages, with the group at byte 8 and the version of a query by its size; all else is ignored |
| `Checksum.FoldMeaning` | src/ecmh.c:62-65 | the fold is the non-zero representative modulo 65535, and 0 for 0 alone |
| `Checksum.Inchksum` | src/ecmh.c:45-68 | the loops compute the folded sum of the words, odd byte included, with the accumulator below 2^31 |
| `Checksum.Ipv6Checksum` | src/ecmh.c:71-105 | folding three pieces and wrapping twice equals the complemented sum over the pseudo-header of section 8.1 of RFC 8200 and the data |
| `Checksum.ByteOrder` | src/ecmh.c:51-67 | for every buffer, summing byte-swapped words and folding gives the byte swap of the folded sum (section 2(B) of RFC 1071) |
| `Checksum.OnTheWire` | src/ecmh.c:92-104 | the bytes a little-endian machine stores are the checksum in network byte order |
| `Checksum.StoredVerifies` | src/ecmh.c:96-104 | stored in its zeroed aligned field, the result makes the whole fold to 0xffff, also when 0 was replaced |
| `Interfaces.DetectOk` | src/interfaces.c:407-482 | over any packets, the version stays in 0..2, the MLDv1 time is kept exactly at version 1, and the only-modes hold |
| `Interfaces.VersionOneExactly` | src/interfaces.c:422-453 | the version is 1 if and only if an MLDv1 packet found it unset and no MLDv2 packet came more than 125 seconds after that one |
| `Interfaces.VersionTwoExactly` | src/interfaces.c:437-476 | the version is 2 if and only if the mode allows it, a packet it listens to was seen, and version 1 is not in force |
| `Interfaces.NoDowngrade` | src/interfaces.c:418-436 | version 2 is never left |
| `Interfaces.MldV1TakesEffect` | src/interfaces.c:409-436 | an MLDv1 packet changes the state if and only if the daemon is not restricted to MLDv2 and no version is known, that is, with both versions allowed, if it is the first packet |
| `Interfaces.SecondPacketIgnored` | src/interfaces.c:418-436 | an MLDv1 packet after an MLDv2 packet changes nothing |
| `Interfaces.QueryAnswered` | src/ecmh.c:1770-1840 | the "Did not answer query" branch is unreachable, and the answer is in the version on record |
| `Interfaces.ReportVersion` | src/ecmh.c:1275-1288 | a report goes out in exactly one version unless none is known on a link that is not upstream |
| `Interfaces.IntTable.Create` | src/interfaces.c:165-340 | for every outcome of the system calls, the live slots change as the map of interfaces does |
| `Interfaces.IntTable.Grow` | src/interfaces.c:174-190 | growth keeps all live slots and adds none |
| `Interfaces.IntTable.Destroy` | src/interfaces.c:342-356 | exactly the slot is no longer live |
| `Interfaces.IntTable.Find` | src/interfaces.c:358-362 | finds exactly the live slots |
| `Interfaces.IntTable.SetMldVersion` | src/interfaces.c:407-482 | the version fields of one interface change as the version machine says and nothing else |
| `Interfaces.IntTable.Send` | src/ecmh.c:692-710 | a send destroys its interface exactly when the device is gone |
| `Interfaces.TableRunOk` | src/interfaces.c:165-362 | after any sequence of operations a live slot has its own index and an MTU of at least 1280 |

## Left out

- ReportSplit.SplitReport: a report for one group; the answer to an MLDv2 query puts several groups in one packet, where the code reads counts it has already byte-swapped, and only whether such a report has anything in it is modelled.
- ReportSplit.SplitReport: stops at `Duplicate` and `TooLong`, because what the code does from there on depends on memory outside its packet; for the same reason a read of the slot behind the buffer is taken as a mismatch, and what the check reads after a `::` is arbitrary.
- ReportSplit.SplitReport: the 16-bit source count and length fields are taken not to overflow, which holds for every MTU below 65536.
- Daemon.Mld2Report: a record header that straddles the end of the payload ends the walk, where the code would read on behind the packet.
- Daemon.SendReport: treats the packets of one report on one interface as one send.
- Daemon.MldQuery: lists the groups before the first report of an MLDv1 answer leaves, where the code sends as it walks; the sends only read the lists.
- MainLoop.Update: takes the interfaces a rescan comes across as given, none if it is skipped; the addresses it notes for them are not modelled.
- ExtHeaders.SkipHeaders: a header whose two fields are not inside the packet ends the walk, where the code would read on behind the packet.
- ExtHeaders.WalkInverts: the Authentication Header is left out of the encoding, because the code steps over it in 8-byte units, unlike section 2.2 of RFC 4302.
- Ingress.PacketReadBack: a packet that claims more bytes than arrived is dropped, where the code would read on behind it.
- ReportReach.FloodReaches: assumes that what a hub emits on a link arrives at the other hubs there, that the attached interfaces are live, and that no hub heard of the group during the 125 seconds before; without the last, a hub may stay silent.
- DeliveryTree.SubscribersReached: for links on which MLDv1 is in use; over MLDv2 links a report may come in several packets, of which only the first is passed on.
- DataFlood.OutputsBound: takes the kind of payload as given; `Ingress.PacketReadBack` has it computed from the bytes.
- The 64-bit wrap-around of the clock subtraction in groupint_get, which needs a clock that goes back.
- The reports on SIGUSR2, which bypass the version choice.
- Statistics and log output, including the log line for a wrong checksum, which does not drop the packet.
- Freeing of memory: a node that is unlinked is never visited again, but deallocation itself is not modelled.
- Sockets, ioctl calls, BPF and tunnelled packets, interface addresses, signals, daemonising, option parsing; they appear as arbitrary inputs.
- tools/mtrace6, a separate network client.
