# A verified model of the telemetry pipeline

A collector turns device trees into messages, a broker log carries them, a consumer writes them to
PostgreSQL, and a web application searches the tables. This project models the four places where the
code decides something that is hard to see from reading one function, and proves what they do:

- **The batching consumer** (`BatchLog`, `BatchRuns`, `BatchRecovery`, `BatchConsumer`, `MacArp`). `consumeMACBatch` and
  `consumeARPBatch` as a state machine over one log partition: receive (good or malformed), flush (commits,
  fails, or commits without the consumer learning of it), and restart from any committed offset. The
  reference is a row-at-a-time upsert of the log. The class `BatchConsumer.Consumer` updates the map, the
  cursor and the offset in place and is proved to take exactly the steps of the state machine. The two loops
  of the source differ only in their key and columns, so one generic consumer stands for both; `MacArp` says
  how each entry type fills it (the conversion of `vlan` and `age` to int32, which the source does at the
  flush, is done there).
- **Guarded rows and cleanup** (`Register`, `OrderFreedom`, `GuardedLog`, `Rereading`, `GuardedTables`,
  `ClaimLoop`, `Cleanup`). The statements of `handleInterface` and `handleVlan` written out column by column,
  proved equal to a small register in which an absent column is an absent map key; then what that register
  computes over arbitrary orders, replays, crashes, database errors and deletions.
- **The collector** (`Telemetry`, `Walk`, `Readings`, `Extract`, `TreeReading`, `Layout`, `VlanExtract`, `Wire`,
  `EndToEnd`).
  The stack walk, the field extraction, the two serialiser layouts, the JSON objects, and the path of a
  three-state field from the tree to the row.
- **The search** (`MacAddress`, `Patterns`, `SearchSql`, `SearchHandler`, `SearchCompleteness`). The query as a relational
  program over sets of rows, the handler's bookkeeping loops, and what a search is certain to find.
- **API tokens** (`Tokens`). Creation as a count and a later insert, under every interleaving.

## Where the obvious claim is false

- *Batching equals a plain upsert.* Ties keep the first entry in a batch and the last in a plain upsert, and
  the collector stamps all entries of a message alike; `BatchRecovery.TieInMessageDiffers` is such a message.
  `BatchRuns.EveryScheduleRefinesIffInOrder` proves that the two agree under every schedule exactly on logs
  satisfying `BatchLog.InOrder`; strictly increasing timestamps per key imply it.
- *A crash loses nothing.* A malformed message is marked at once, even above buffered entries.
  `BatchRuns.MalformedMarkLosesData` is a concrete losing run. `BatchRuns.RestartHarmlessIff` says exactly
  which restarts are harmless: those where every buffered key is either already in the table with its row or
  carried again by a message from the restart offset on. `BatchRecovery.AlwaysRecoversIff` says exactly from
  which logs every run recovers: those in order where no message up to a malformed one changes the table.
- *An errored interface or VLAN message is retried.* A later success marks past it, and even a redelivery from
  further back need not repair the row, because the timestamp guard by then drops the older message:
  `Rereading.DroppedMessageStaysLost` is such a run. `Rereading.NothingSkippedIff` says exactly when nothing is
  marked past unhandled, over runs with restarts; `Rereading.RereadRestoresIff` exactly when re-reading restores
  the table; and `GuardedLog.GuardedRecovery` that it always does when errors end their sessions.
- *The arrival order of guarded messages does not matter.* `GuardedTables.ArrivalOrderMatters` is a pair where
  it does. It does not exactly when the messages are reconciled (`OrderFreedom.OrderFreeIffReconciled`); full
  snapshots with distinct times are.
- *Any accepted MAC spelling could be stored.* Hyphenated and bare spellings are accepted in a query, but a row
  stored that way is not found, not even by its own spelling: `SearchCompleteness.MacIsReportedIff` is the exact
  condition, `SearchCompleteness.OtherSpellingsAreNotReported` the consequence, and
  `SearchCompleteness.HyphenatedRowIsNotReported` an input.
- *The two halves of a search share no address.* They do in one case, when both show an empty one
  (`SearchSql.HalvesOverlapIff`, `SearchSql.HalvesCanOverlap`).
- *A user has at most ten active tokens.* With K concurrent requests there can be 9 + K, and that number is
  reached (`Tokens.BoundIsReached`); serial creations keep the limit.
- The comment on `isIfaceNode` speaks of a leaf named "name", and the function strips a module prefix, but the
  extraction loop compares the full name: `Extract.UnpublishedIff` says which interface nodes go unpublished, and
  `Layout.PrefixedNameIsUnpublished` is one that does.
- `handleInterface` treats an absent `shutdown` like other absent fields, but the column is NOT NULL, so the
  insert is refused, also where it would only have updated a row (`GuardedTables.MissingShutdownIsRefused`); the
  collector always sends the field.

## Assumptions

A database statement is atomic, unique keys are enforced and so is NOT NULL, on the proposed row even where it
ends as an update, a value that does not fit its column
type is an error, one INSERT may not update a row twice, and equally ranked rows of a DISTINCT ON may be
chosen either way. Marking an offset never moves the marked offset back. A partition has one consumer at a
time, and the keys of one partition appear in no other (messages are keyed by node). Timestamps are integers.
Letter case is ASCII case. The subnet-mask conversion, the host-name resolver and the database behind the
search handler are parameters.

## Model

| member | source | states |
|---|---|---|
| BatchLog.NewestIsFirstMaximal | consumer/main.go:162-167 | what a batch holds for a key is the first entry of maximal timestamp with that key, and nothing exactly when the key does not occur |
| BatchLog.AbsorbAllHoldsNewest | consumer/main.go:162-167 | running the receive loop on a batch that holds the newest entries of what was seen gives one that holds the newest entries of everything seen, for every key |
| BatchLog.PlainUpsertKeepsLatest | consumer/main.go:131-135 | an upsert without a timestamp guard leaves the last entry of each key in log order, and other rows as they were |
| BatchLog.WindowAgrees | consumer/main.go:164-166 | on an ordered log the newest entry of any window of messages is its last entry |
| BatchLog.AgreeingWindowsAreInOrder | consumer/main.go:164-166 | conversely, if every window agrees then the log is ordered |
| BatchLog.StrictIsInOrder | consumer/main.go:101-104 | timestamps strictly increasing per key make a log ordered |
| BatchRuns.BatchInvariantHolds | consumer/main.go:106-168 | in every reachable state of every run on every log each map value sits under its own key and is the newest since the last successful flush, and a non-empty batch has a last message, which is the last good one received |
| BatchRuns.FlushMarksAllReceived | consumer/main.go:136-143 | in every run a committed flush of a non-empty batch moves the marked offset to everything received so far, and no other flush moves it |
| BatchRuns.ReceiveMarksMalformedOnly | consumer/main.go:156-168 | in every run receiving moves the marked offset exactly when the message does not decode, and then to just past it |
| BatchRuns.RestartRecoverableIff | consumer/main.go:141-160 | a restart keeps a state recoverable exactly when it loses no buffered entry |
| BatchRuns.CaughtUpIff | consumer/main.go:127-143 | once everything is re-read, being recoverable is the same as table plus batch equalling the row-at-a-time table |
| BatchRuns.CrashRecoveryRefinesPlainUpsert | consumer/main.go:105-184 | on every ordered log, malformed messages included, over every interleaving whose restarts lose nothing, a consumer that has re-read to its high-water mark shows the row-at-a-time upsert of the whole prefix |
| BatchRuns.MalformedFreeIsLossless | consumer/main.go:141-168 | on a log without malformed messages no restart from any committed offset loses anything |
| BatchRuns.CrashRecovery | consumer/main.go:105-184 | the same conclusion for any run at all when no message is malformed and timestamps strictly increase per key |
| BatchRuns.RestartHarmlessIff | consumer/main.go:156-168 | from any recoverable state, after a restart and an undisturbed re-read, the view is the row-at-a-time table if and only if the restart lost nothing |
| BatchRuns.EveryScheduleRefinesIffInOrder | consumer/main.go:164-178 | batching shows the plain upsert under every crash-free schedule if and only if the log is in order |
| BatchRuns.MarkedMeansWritten | consumer/main.go:109-144 | on malformed-free logs, in every reachable state, each entry below the marked offset was written by a successful flush or lost in the same batch to a same-key entry at least as new |
| BatchRuns.ReceivedMeansWrittenOrHeld | consumer/main.go:109-168 | without restarts, on any log, each received entry is accounted for that way or by the held batch |
| BatchRuns.MalformedMarkLosesData | consumer/main.go:157-161 | a concrete run in which a malformed message marked over a buffered entry, followed by a crash, loses the entry |
| BatchRecovery.AlwaysRecoversIff | consumer/main.go:105-184 | every run, with any crashes, flush failures and redeliveries, shows the row-at-a-time table whenever it has caught up, if and only if the log is in order and no message up to a malformed one changes the table |
| BatchRecovery.TieInMessageDiffers | consumer/main.go:162-167 | a concrete message with two entries of one key and one stamp, of which the batch keeps the first and a plain upsert the last |
| BatchConsumer.Unzip | consumer/main.go:113-126 | the parallel arrays have the size of the batch, pairwise distinct keys, and at each position one key with its own entry; none is left out |
| BatchConsumer.ExecUpsert | consumer/main.go:127-137 | the statement is refused on a repeated key and otherwise overwrites exactly the listed rows, or changes nothing when it fails |
| BatchConsumer.WriteBatch | consumer/main.go:109-140 | a batch whose values sit under their own keys is never refused for a repeated key, and exactly its rows are written |
| BatchConsumer.Consumer.constructor | consumer/main.go:105-107 | a new consumer is in the start state |
| BatchConsumer.Consumer.Mark | consumer/main.go:141-141 | marking moves the offset to just past the message, never back |
| BatchConsumer.Consumer.Flush | consumer/main.go:109-144 | the in-place flush is the flush step of the state machine for each outcome, keeps the invariant, and marks everything received exactly when it commits a non-empty batch |
| BatchConsumer.Consumer.AbsorbEntries | consumer/main.go:162-167 | the loop over a message's entries is the fold of the single-entry rule |
| BatchConsumer.Consumer.OnMessage | consumer/main.go:151-178 | the receive branch is the receive step, followed by a flush exactly when the message was good and 500 keys are held; the marked offset moves only past a malformed message or with such a flush |
| BatchConsumer.Consumer.OnTimer | consumer/main.go:179-181 | the timer branch is a flush step |
| BatchConsumer.Consumer.OnRestart | consumer/main.go:105-107 | a new session is a restart step |
| BatchConsumer.Consumer.OnClose | consumer/main.go:152-155 | closing the claim is a flush step followed by a restart step |
| MacArp.ToInt32 | consumer/main.go:123-123 | the stored number has the same 32 bits as the unsigned one |
| MacArp.StampedIsInOrder | collector/main.go:231-237 | logs as the collector stamps them, one timestamp per message, are in order although the timestamps in a message tie |
| MacArp.MacTableRecovers | consumer/main.go:105-184 | mac_table recovers from every crash on such logs of decodable messages, and then holds under each node and address the interface, type, timestamp and VLAN (as an int32 with the same bits) of the last entry about them |
| MacArp.ArpTableRecovers | consumer/main.go:186-265 | so does arp_table, with MAC address, interface, timestamp and age under each node and IP |
| Register.TimeIsMaximum | consumer/main.go:291-292 | collected_at is the maximum timestamp handled for the row |
| Register.ColumnMeaning | consumer/main.go:282-292 | each column is the last value present in the running-maximum subsequence of the messages, or the earlier value, or the insert default |
| Register.ClearSurvivesLateArrivals | consumer/main.go:274-278 | what an accepted message sets or clears survives every later-arriving older message, and so does the whole row |
| Register.RedeliverMore | consumer/main.go:282-292 | if re-reading a tail restores a row, so does re-reading from further back, even when the row's columns had been moved backwards by a partial redelivery |
| Register.RedeliveryIsNoOp | consumer/main.go:279-292 | redelivering any suffix of what a row has seen leaves it as it was, for arbitrary timestamps and absent columns |
| OrderFreedom.OrderFreeIffReconciled | consumer/main.go:279-292 | every arrival order gives the same row if and only if the newest messages agree where they overlap and every other column is carried by a newest message or equals the insert default |
| OrderFreedom.SnapshotsConverge | consumer/main.go:279-292 | full snapshots with distinct timestamps end, in every order, as the newest message |
| GuardedLog.RowsAreIndependent | consumer/main.go:282-282 | a row depends only on the messages for its own key |
| GuardedLog.RedeliveryLeavesTable | consumer/main.go:279-317 | redelivering any suffix of a log leaves the whole guarded table unchanged |
| GuardedLog.GuardedRecovery | consumer/main.go:84-98 | over every run with restarts from any committed offset, rejected messages included, in which nothing is handled between a database error and the next restart, a consumer that has re-read to its high-water mark without an error holds the table of one clean delivery |
| Rereading.RereadRowIff | consumer/main.go:282-292 | for a row no newer than the final one, re-reading a tail gives the row of one clean delivery exactly when its time or one in the tail is the newest of all, and for each column the last accepted carrier in the tail, or else the row, says what the whole sequence says |
| Rereading.NotAheadHolds | consumer/main.go:84-98 | in every reachable state, database errors included, no row is newer than one clean delivery would have left it |
| Rereading.RereadRestoresIff | consumer/main.go:84-98 | after any run, with database errors anywhere, a restart from any committed offset and an error-free re-read restore the table of one clean delivery if and only if every row is regained in that sense |
| Rereading.NothingSkippedIff | consumer/main.go:92-96 | over every run with restarts, all acceptable messages below the marked offset have been handled in every state exactly when none is acknowledged above a dropped one that was never handled |
| Rereading.DroppedMessageStaysLost | consumer/main.go:92-96 | a concrete run in which a later success marks past a failed message, and re-reading both leaves the older one's description lost |
| GuardedTables.InterfaceIsGuardedRegister | consumer/main.go:279-296 | the interface statement, COALESCE by COALESCE, is the guarded register with access_vlan defaulting to 1 on insert only |
| GuardedTables.VlanIsGuardedRegister | consumer/main.go:310-318 | the VLAN statement is the guarded register without defaults, an empty status counting as absent |
| GuardedTables.IfInsertedCell | consumer/main.go:280-281 | each column of an inserted row is the message's value, or 1 for an absent access_vlan |
| GuardedTables.IfUpdatedCell | consumer/main.go:283-291 | each column of an updated row is the message's value where present and the stored one otherwise, access_vlan included |
| GuardedTables.InterfaceHandledIff | consumer/main.go:267-296 | a decoded interface message is handled exactly when the database commits, shutdown is there, and each number fits smallint or integer |
| GuardedTables.VlanHandledIff | consumer/main.go:299-318 | a decoded VLAN message exactly when the database commits and the id fits integer |
| GuardedTables.InterfaceRedelivery | consumer/main.go:267-297 | redelivering any suffix of an interface log, refused and malformed messages included, changes nothing in interface_table |
| GuardedTables.VlanRedelivery | consumer/main.go:299-320 | the same for vlan_table |
| GuardedTables.InterfaceTableRecovers | consumer/main.go:84-98 | interface_table over a run is the one of one clean delivery, column by column, once re-read without an error, if nothing was handled between an error and the next restart |
| GuardedTables.VlanTableRecovers | consumer/main.go:84-98 | so is vlan_table |
| GuardedTables.ArrivalOrderMatters | consumer/main.go:274-292 | two concrete messages for one interface whose order decides whether the description is kept |
| GuardedTables.MissingShutdownIsRefused | consumer/main.go:279-296 | a concrete message without shutdown that is refused although its row exists |
| ClaimLoop.HandleIsRegisterStep | consumer/main.go:84-98 | handling a message of either topic is the guarded register's step on that topic's table, leaves the other table alone, and succeeds exactly when the step is acknowledged: the message is acceptable and its statement commits and is seen to |
| ClaimLoop.InterfaceClaimIsRun | consumer/main.go:84-98 | a claim of interface messages from where the consumer was restarted is a run of the guarded log's machine, with the same table and the same marked offset |
| ClaimLoop.VlanClaimIsRun | consumer/main.go:84-98 | so is a claim of VLAN messages |
| ClaimLoop.Store.ConsumeClaim | consumer/main.go:84-98 | the loop applies the messages in order and ends with the marked offset just past the last success |
| ClaimLoop.Store.CleanupTick | consumer/main.go:334-343 | a tick removes exactly the rows below the cutoff and changes no other |
| Cleanup.PresentAfterTickIff | consumer/main.go:324-345 | right after a tick a key is present exactly when some message handled for it is at or above the cutoff, and its row then carries the newest time handled |
| Cleanup.LateMessagesDoNotRevive | consumer/main.go:334-343 | a key a tick has removed is present after the next tick exactly when a message at or above that tick's cutoff was handled in between |
| Cleanup.RowBetweenDeletions | consumer/main.go:282-292 | between deletions a row is the fold of the messages handled for its key |
| Telemetry.StripModuleMeaning | collector/main.go:334-337 | the stripped name has no colon, ends the full name, and is cut right after a colon |
| Telemetry.IsIfaceIff | collector/main.go:362-378 | a field is an interface node exactly when some direct child called "name", with or without a module prefix, has a text, a number or another scalar as its value |
| Walk.CollectInterfaces | collector/main.go:391-415 | the stack walk terminates and returns the recursive last-child-first traversal, in its order |
| Walk.PushLinks | collector/main.go:403-407 | below an interface node exactly the interface children are pushed, in order |
| Walk.WalkListsEachReachableOnce | collector/main.go:380-415 | the walk lists the interface nodes at precisely the occurrences reachable through non-interface containers or interface-to-interface links, each once, a node before those below it and later siblings first |
| Readings.LastIgnoresOrderIff | collector/main.go:444-497 | the last reading of a column is the same in every field order exactly when all its readings agree |
| Extract.FindFirst | collector/main.go:332-342 | the inner search returns the first field with that stripped name |
| Extract.FindNestedField | collector/main.go:329-352 | the cursor loop follows the path through the first match at every step |
| TreeReading.FindNestedIff | collector/main.go:326-352 | what is found is exactly what the path reaches from one first match to the next, module prefixes aside |
| Extract.ApplyField | collector/main.go:447-514 | the switch changes each column exactly as that column's reading of the field says |
| Extract.ExtractEntry | collector/main.go:438-515 | for any fields in any number and order the loop yields, per column, the last reading, the bare switchport container counting only when no switchport-config speaks |
| Extract.DecimalMeaning | collector/main.go:451-458 | a number is written in decimal digits without leading zeros |
| TreeReading.EntryFollows | collector/main.go:438-515 | for any fields in any number and order, each column of the entry is what the last field of its literal name leads to along its literal path: the text of a string, the number of a uint32 as 16 bits for VLANs, the mask's length, and their zero value for a scalar of another kind |
| TreeReading.OnlyEntryOfFollows | collector/main.go:438-515 | those rules leave no choice: an entry follows them if and only if it is the extracted one |
| Extract.UnpublishedIff | collector/main.go:451-458 | an interface node has no name, and goes unpublished, exactly when no data field of it is called exactly "name" |
| Extract.EntryIgnoresFieldOrder | collector/main.go:444-515 | with at most one data field per handled name, permuting the fields, chain links included, does not change the entry |
| Extract.ConfigWins | collector/main.go:485-513 | a VLAN in switchport-config wins over the bare container on either side of it |
| Extract.LinkIsInvisible | collector/main.go:445-449 | a chain link does not affect the entry, wherever it sits |
| Layout.PublishInterface | collector/main.go:426-524 | the method publishes, row by row, the extracted entry of each collected node that has a name |
| Layout.PublishNodes | collector/main.go:437-522 | one entry per node in walk order, nameless ones left out |
| Layout.FindContent | collector/main.go:427-433 | the first field called content |
| Layout.ContentOfMeaning | collector/main.go:427-433 | a row's content is its first field with exactly that name, and there is none exactly when no field has it |
| Layout.PublishedRowsMeaning | collector/main.go:426-524 | a message publishes exactly one entry per named node that the walk collects below the content of a row, in the order of rows and walk, and nothing else |
| Layout.LoneInterfaceIsPublished | collector/main.go:426-524 | whatever kind of value its name has, an interface below content that says nothing else is published as exactly one entry, named by its type and the text or the decimal number |
| Layout.Vlan10IsPublished | collector/main.go:451-458 | the interface of VLAN 10, whose name is a number, is published as "Vlan10" |
| Layout.PrefixedNameIsUnpublished | collector/main.go:445-458 | a concrete interface node whose only name leaf has a module prefix and which yields no entry |
| Layout.LayoutIndependence | collector/main.go:380-390 | the flat and the nested-chain serialisation of the same interfaces, links anywhere among the fields, publish the same multiset of entries, namely those the interfaces stand for |
| VlanExtract.ExtractVlan | collector/main.go:539-580 | the loop over the containers yields the last id, the last direct name or else the first state name, and the status fold |
| VlanExtract.ApplyKeys | collector/main.go:545-551 | "id" is preferred to "vlan-id" |
| VlanExtract.ApplyContent | collector/main.go:552-578 | a present direct name overrides, a state name fills an absent one, a state status fills an empty one |
| VlanExtract.OneContent | collector/main.go:552-578 | with one content container the direct name wins over the state name, empty or not, and the direct status wins unless empty |
| VlanExtract.VlanFollows | collector/main.go:543-580 | with at most one keys and one content container the id is the number of "id" or else "vlan-id", the name the text under content or else content/state, and the status the first of those two that is not empty |
| VlanExtract.PublishVlan | collector/main.go:538-589 | the method publishes, row by row, the extracted entries whose id is not 0 |
| VlanExtract.PublishedVlansMeaning | collector/main.go:581-583 | a message publishes exactly one entry per row with an id, in the order of the rows |
| Wire.InterfaceRoundTrip | collector/main.go:69-88 | decoding an encoded interface entry gives back every three-state field in its state; only an empty vrf and a zero mtu become absent |
| Wire.VlanRoundTrip | collector/main.go:47-58 | decoding an encoded VLAN entry gives it back |
| Wire.InterfaceOnTheWire | collector/main.go:69-88 | the keys of an interface object: a nil pointer is sent as null, only an empty vrf and a zero mtu are left out |
| Wire.VlanOnTheWire | collector/main.go:47-58 | the keys of a VLAN object: a nil name and an empty status are left out |
| Wire.DecodedInterfaceIff | consumer/main.go:47-59 | exactly which interface objects decode and to what, key by key, with the ranges of the Go types |
| Wire.DecodedVlanIff | consumer/main.go:19-27 | the same for VLAN objects |
| EndToEnd.DeliveredInterface | consumer/main.go:267-297 | a nameless entry is skipped, a published one is refused exactly when a number does not fit its column, a stale one changes nothing, and any other is laid over its own row, or over a blank one, keeping what it does not carry, and over no other row |
| EndToEnd.InterfaceThreeStates | collector/main.go:438-522 | for any node, message and table: skipped exactly without a field called exactly "name", refused exactly when a number does not fit, unchanged when stale; otherwise every column of the row named by the tree follows the tree field by literal name and path: set where a field leads to a value, the empty one included, kept where none does, VLAN numbers below 4096 exactly |
| EndToEnd.DeliveredVlan | consumer/main.go:299-320 | id 0 is skipped, an id beyond 31 bits refused, a stale entry changes nothing, and any other is laid over its own row, an empty status counting as absent |
| EndToEnd.VlanThreeStates | collector/main.go:539-589 | the same for a VLAN row, from the tree's id, name and status |
| MacAddress.NormalizeMac | webapp/internal/search/sql.go:17-32 | the loop collects the hex digits and yields the colon and dot forms exactly when there are twelve |
| MacAddress.AcceptedHasTwelveDigits | webapp/internal/search/sql.go:10-27 | every string the pattern accepts has exactly twelve hex digits |
| MacAddress.SameFormsIffSameAddress | webapp/internal/search/sql.go:15-32 | two accepted strings have the same forms exactly when their digits agree ignoring case; different addresses share no form |
| MacAddress.FormsAreFixed | webapp/internal/search/sql.go:28-31 | both forms are accepted again and normalise to the same pair |
| MacAddress.SpellingIsAFormIff | webapp/internal/search/sql.go:15-31 | a spelling is, lower-cased, one of the two forms exactly when it is in colon or dotted form |
| SearchSql.DistinctOn | webapp/internal/search/sql.go:40-61 | a selection with one row per key, first in the order among the rows of its key |
| SearchSql.LeftJoinIsFunctional | webapp/internal/search/sql.go:73-76 | a left join on a unique key yields each left row exactly once |
| SearchSql.OneTuplePerMac | webapp/internal/search/sql.go:72-76 | despite four left joins a row of best_mac appears once |
| SearchSql.OneRowPerMac | webapp/internal/search/sql.go:62-77 | the first half has at most one row per stored MAC |
| SearchSql.PortIsBest | webapp/internal/search/sql.go:45-61 | its port has minimal interface rank and is newest among equal ranks |
| SearchSql.StartsWithMeaning | webapp/internal/search/sql.go:53-56 | the prefix test compares letter by letter, ignoring ASCII case |
| SearchSql.PhysicalPortIsPreferred | webapp/internal/search/sql.go:45-61 | the port shown is no Vlan, Loopback, Tunnel or port-channel if the address was seen on any other port, no Vlan, Loopback or Tunnel if it was seen on a port-channel, and within its class the one seen last |
| SearchSql.AccessPortIsShown | webapp/internal/search/sql.go:45-61 | a concrete address seen on an access port and later on a port-channel and a Vlan interface is shown on the access port |
| SearchSql.FirstHalfIsJoined | webapp/internal/search/sql.go:62-77 | its other columns are those of the interface, the VLANs and the newest ARP row with the joined keys, NULL where there is none, and it was asked for by MAC or by IP |
| SearchSql.IpIsNewestOfMac | webapp/internal/search/sql.go:39-44 | if any ARP row names the address, the IP shown with it is that of a newest such row |
| SearchSql.SecondHalfIsArpOnly | webapp/internal/search/sql.go:81-100 | a second-half row is a newest ARP row of an asked IP whose address no MAC row has, without port columns |
| SearchSql.HalvesOverlapIff | webapp/internal/search/sql.go:79-100 | the halves share an address, ignoring case, if and only if an asked IP's newest ARP row has no address and the first half has a row for an empty stored one |
| SearchSql.HalvesCanOverlap | webapp/internal/search/sql.go:79-100 | a concrete database and question where they do |
| SearchSql.StoredMacIsShown | webapp/internal/search/sql.go:72-77 | an asked address stored under one of its forms is in the first half |
| SearchSql.IpInFirstHalfIff | webapp/internal/search/sql.go:39-77 | an asked IP is in the first half exactly when it is on the newest ARP row of a stored MAC |
| SearchSql.IpInSecondHalfIff | webapp/internal/search/sql.go:81-100 | and in the second half exactly when its newest ARP row names an address that is not stored |
| SearchSql.CurrentIpIsShown | webapp/internal/search/sql.go:34-100 | an IP whose newest ARP row is the newest of its MAC is shown, whether or not the MAC is stored |
| SearchSql.NothingAskedNothingFound | webapp/internal/search/sql.go:77-95 | with empty lists the answer is empty |
| SearchHandler.IpIsNothingElse | webapp/internal/search/sql.go:10-12 | an IP is neither a MAC nor a host name |
| Patterns.MacReIff | webapp/internal/search/sql.go:10-10 | the MAC test accepts exactly what the expression matches, alternative by alternative |
| Patterns.IpReIff | webapp/internal/search/sql.go:11-11 | so does the IP test |
| Patterns.HostReIff | webapp/internal/search/sql.go:12-12 | so does the host name test, with the two non-ASCII characters that fold to letters |
| Patterns.ClassifyIff | webapp/internal/search/handler.go:39-60 | a term is a MAC or an IP exactly when that expression matches, and a host name exactly when its expression matches and the MAC one does not |
| SearchHandler.TrimMeaning | webapp/internal/search/handler.go:35-35 | trimming keeps everything between the first and the last character that is no white space |
| SearchHandler.KindsDoNotShareValues | webapp/internal/search/handler.go:39-60 | terms of different kinds never share a look-up value, so the one seen map never suppresses a term of another kind |
| SearchHandler.ClassifyTerms | webapp/internal/search/handler.go:30-61 | the three lists are duplicate-free and hold exactly the look-up values of the classified terms of their kind; the records list those terms in order with repeats |
| SearchHandler.ResolveHosts | webapp/internal/search/handler.go:63-83 | the IP list becomes its old values and the IPv4 addresses of the host names, without duplicates, and each resolved host gets its own list |
| SearchHandler.FillHosts | webapp/internal/search/handler.go:84-88 | each host name's record looks for its addresses, none when it did not resolve |
| SearchHandler.Prepare | webapp/internal/search/handler.go:30-88 | both query lists are duplicate-free and ask exactly for the look-up values of the records |
| SearchHandler.CollectFound | webapp/internal/search/handler.go:139-146 | exactly the lower-cased addresses and the IPs of the results |
| SearchHandler.Match | webapp/internal/search/handler.go:150-168 | a record matches exactly when some result answers it |
| SearchHandler.CollectNotFound | webapp/internal/search/handler.go:148-172 | the originals of the records no result answers, in order with repeats |
| SearchHandler.NothingAnswered | webapp/internal/search/handler.go:95-102 | with no results every term is reported, which is what the early return reports |
| SearchHandler.Search | webapp/internal/search/handler.go:30-174 | the handler, early return included, returns the query's rows for the two lists and exactly the unanswered terms |
| SearchCompleteness.StoredMacIsReported | webapp/internal/search/handler.go:139-158 | a MAC stored in colon or dotted form in any case is found for every accepted spelling |
| SearchCompleteness.LookUpValueIff | webapp/internal/search/sql.go:15-31 | a stored string is, lower-cased, a look-up value of an accepted term exactly when it spells the term's address with colons or with dots |
| SearchCompleteness.MacIsReportedIff | webapp/internal/search/handler.go:139-158 | a MAC term is found if and only if mac_table has its address in colon or dotted form, or the newest ARP row of an asked IP has it so while mac_table has not |
| SearchCompleteness.OtherSpellingsAreNotReported | webapp/internal/search/sql.go:15-31 | an address stored only with hyphens or bare is not found, whatever the spelling of the term |
| SearchCompleteness.HyphenatedRowIsNotReported | webapp/internal/search/sql.go:15-31 | a concrete stored address that its own spelling does not find |
| SearchCompleteness.CurrentIpIsReported | webapp/internal/search/handler.go:139-167 | an IP, asked for directly or through a host name, whose newest ARP row is the newest of its MAC is found |
| SearchCompleteness.IpIsShownIff | webapp/internal/search/sql.go:39-100 | exactly which asked IPs an answer shows |
| SearchCompleteness.UnansweredIff | webapp/internal/search/handler.go:148-172 | a term is reported not found exactly when it was classified and nothing answers it |
| SearchCompleteness.NotFoundIff | webapp/internal/search/handler.go:30-174 | for all terms, tables and ties: what Search reports not found is exactly the trimmed terms of a kind for which the tables hold nothing, by the conditions for MACs, IPs and resolved host names, in the order of the terms and with their repeats |
| Tokens.ActivePlusPendingIsBounded | webapp/internal/tokens/handler.go:80-112 | with at most K requests of a user between count and insert, active tokens plus pending inserts never exceed 9 + K, over all runs |
| Tokens.SerialCreationsKeepTheLimit | webapp/internal/tokens/types.go:7-7 | serial creations never exceed ten active tokens |
| Tokens.BoundIsReached | webapp/internal/tokens/handler.go:80-112 | for every K some run reaches 9 + K active tokens |
| Tokens.RevocationIsFinal | webapp/internal/tokens/handler.go:135-137 | no later step makes a revoked token active |
| Tokens.RevokedIff | webapp/internal/tokens/handler.go:135-147 | a step revokes an unrevoked token if and only if it is its owner's request for that very token |
| Tokens.ActiveIff | webapp/internal/tokens/handler.go:80-84 | over every continuation a token is active for a user exactly when the user owns it, it was not revoked before, the owner does not revoke it, and its expiry is still to come |
| Tokens.CreatedTokenIsActiveIff | webapp/internal/tokens/handler.go:48-107 | a granted request leads to a token of that user alone, active until its days (90 by default, 0 for ever) have passed since the check or the user revokes it; a request that is not granted changes nothing |
| Tokens.TokenTable.CountActive | webapp/internal/tokens/handler.go:80-84 | the count is the number of the user's tokens neither revoked nor expired |
| Tokens.TokenTable.CreateCheck | webapp/internal/tokens/handler.go:48-93 | the request passes exactly when its name and days are acceptable and fewer than ten tokens are active, and each refusal has its own response |
| Tokens.TokenTable.CreateInsert | webapp/internal/tokens/handler.go:102-107 | the pending request becomes an active row under a new id |
| Tokens.TokenTable.RevokeToken | webapp/internal/tokens/handler.go:127-148 | only a user's own unrevoked token is revoked; anything else is not found and changes nothing |

## Left out

- The gRPC server, protobuf decoding, path predicates, Kafka producing and its errors, TLS, signals and logging: I/O and foreign libraries; a message is an already decoded tree or record.
- `publishMAC` and `publishARP`, and `expandIfName`: straight field copies and a table look-up.
- JSON text, case-insensitive key matching and time formats: an object is a map from keys to values.
- Batch timers: a flush may happen at any time, so only its order against other steps matters.
- Cleanup of mac_table and arp_table: those tables have no timestamp guard, so their recovery theorems are stated for stretches without deletions.
- EndToEnd.VlanThreeStates: is stated for at most one keys and one content container in a row, as both YANG models have; `VlanExtract.ExtractVlan` covers repeated containers.
- GuardedLog.GuardedRecovery: requires that nothing is handled between a database error and the next restart, because otherwise the code need not reach its conclusion (`Rereading.DroppedMessageStaysLost`); `Rereading.RereadRestoresIff` covers all other runs.
- SearchSql.CurrentIpIsShown: excludes tied timestamps on the row in question and several letter cases of one stored address, since then another row may be chosen or the join misses; `SearchCompleteness.IpIsShownIff` covers those cases.
- The ordering of the answer, NULL node ids, and non-ASCII letter case in stored addresses.
- Calendar arithmetic in token expiry: a day is 86400 seconds.
- Listing tokens, token hashing, SAML, bearer authentication, and the other web handlers and views.
