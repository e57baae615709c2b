# Sliding Sync proxy: a verified model

A Dafny model of the hard core of the Sliding Sync proxy (MSC3575): the sliding-window list protocol between the
server and the reference client, the event store that rolls room state forward, and the state machines that deliver
events to connections. `dafny verify dfyconfig.toml` checks the whole project.

## What is modelled

**The list protocol.** The server keeps a sorted room list and, for each update, sends DELETE, INSERT, SYNC and
INVALIDATE operations for the ranges the client tracks. The client replays them on a sparse map from indexes to rooms.
`Ranges`, `ClosestBound`, `MoveIndexes` and `Delta` model the range arithmetic with its loops; `Sorting`, `RoomOrder` and
`SortableRooms` the room order and the indexed list; `ListOps` and `WindowSlide` what the server sends; `ListClient` the
client, as a class with the client's own shifting loops. `Replica` follows one update through both sides range by
range. `OpenGap` adds the client's open gap: which removals leave one, and exactly which updates may follow it.
`Subscriptions` says which rooms are sent in full. `ListSession` and `SentRooms` put them together: after every exchange
of a run, the client's map equals the server's list at every tracked index below the list length, and every room shown
has been sent. The main theorems are `ListSession.RunsStayInStep` and `SentRooms.RunsSendAll`.

**The event store.** `EventLog` defines the state of a room as a plain fold over its history. `Snapshots`, `RoomTables`,
`StateBlocks` and `Accumulator` model the tables, `Initialise` and `Accumulate`, and prove exactly when a call keeps
`RoomTables.Inv`: every stored before-snapshot is that fold over everything earlier in the room, and the current
snapshot the fold over everything. `StateAtPosition` proves when reading state at a position gives history up to there.
`Pollers` proves exactly when overlapping timelines from several pollers, in whatever order, store one linear timeline.
`Visibility` proves that the two folds over a user's membership log agree.

**Delivery.** `Conn` (response buffer and acknowledgements), `Poller` (since token and retries), `EnsurePoller` (channels
and wakeups), `TxnIdWaiter` (delayed per-room queues), `Tracker` and `Dispatcher` (who hears of an event), `Receipts`
(packing and repacking) and `RequiredState` (query and filter). Each is a function on values, a class or method that
refines it, and invariants over every run.

`Counterexamples` holds one concrete input for each promise that the code keeps only under a condition; the
condition itself is an if-and-only-if lemma next to the code it is about.

Concurrency is modelled as steps taken in any order. Time, randomness, network answers and callback results are
parameters. Database tables are values that the methods update.

## Where the code differs from its documentation or its purpose

- The range delta drops a range of a single index that the other side does not cover (sync3/range.go:289-291).
- A DELETE after an earlier one whose gap is still open deletes its own index before that gap is closed, so it hits the
  index of the list before the first removal (client/sync.js:308-316); `OpenGap.NextAgreesExactly` says when this matters.
- Joining a type and a state key with U+001F is meant to tell them apart (state/accumulator.go:61-66); it does so as
  long as no two keys of the room's state share the joined string, and rolling state forward goes wrong exactly then.
- A state block that comes back to an event after another one of the same type and state key puts the older row into
  the snapshot (state/accumulator.go:240-247, 269-271); `StateBlocks.IngestsExactly` has the exact condition.
- A state block that is the first to store an event of the timeline leaves a hole: a timeline that ends with that event
  is then taken for known, and what precedes it there is never stored (state/accumulator.go:606-655). Without such a
  block the stored timeline is linear, and only then (`Pollers.PollersLinearise`).
- The end of the poll loop is meant always to unblock whoever waits for the first sync (sync2/poller.go:539-543); a
  panic before the first token skips it.
- Reading state at a state-block event returns the current state, which may be later (state/storage.go:555-567).
- `EnsurePolling` is documented to block until the initial sync is complete; a request superseded by a later one for an
  expired device returns earlier (sync3/handler/ensure_polling.go:77-84).
- The bulk path for a room's first state block is described as very similar to live events, but keeps earlier invites
  of members who have left (sync3/dispatcher.go:133-151).
- The queue comment in the transaction-ID waiter speaks of state events, the code queues only events without a state
  key (sync3/handler/txn_id_waiter.go:44-51).

## Model

| member | source | states |
|---|---|---|
| `Ranges.IsValid` | sync3/range.go:16-42 | accepts exactly the ranges that are proper, non-negative and pairwise without a common index, although the code compares end points only |
| `Ranges.InsideUnique` | sync3/range.go:45-52 | in valid ranges the range found around an index is the only one there |
| `ClosestBound.SortedBoundsAlternate` | sync3/range.go:66-74 | the flattened, sorted bounds of valid ranges are the bounds of the sorted ranges, so they alternate between starts and ends |
| `ClosestBound.ScanTowardsZero` | sync3/range.go:76-94 | the downward scan returns the nearest bound at or below the index, -1 if none |
| `ClosestBound.ScanAway` | sync3/range.go:95-114 | the upward scan returns the nearest bound at or above the index, -1 if none |
| `ClosestBound.ClosestInDirection` | sync3/range.go:54-115 | the result is the closest bound of any range in the given direction |
| `MoveIndexes.JumpedExact` | sync3/request.go:222-235 | the jumped-over ranges are exactly those strictly between the two indexes, each once |
| `MoveIndexes.JumpedOverRanges` | sync3/request.go:222-235 | the loop computes that list |
| `MoveIndexes.MovedRangesExact` | sync3/request.go:172-219 | the ranges for which a move is reported are exactly those that meet the interval of the move, each once |
| `MoveIndexes.ClosestIsClamp` | sync3/request.go:195-208 | the closest bound towards the other index is that index clamped into the range |
| `MoveIndexes.EndPairs` | sync3/request.go:195-208 | the pairs for the ranges that one end of the move is in and the other is not: each end clamped into them |
| `MoveIndexes.CalculateMoveIndexes` | sync3/request.go:141-220 | the pairs are the move's two indexes clamped into each range it meets, one pair per range, whichever of the four inside/outside cases applies |
| `Sorting.SortMovesOne` | sync3/sort.go:109-121 | re-sorting after one element's key changed moves that element only |
| `Sorting.SortSorts` | sync3/sort.go:109-121 | the stable sort orders any sequence under a strict weak order |
| `Sorting.SortIsPermutation` | sync3/sort.go:109-121 | the sort keeps every element with its multiplicity |
| `Sorting.SortedIsFixedPoint` | sync3/sort.go:109-121 | a list already in order is left as it is, ties included |
| `Sorting.SortIsStable` | sync3/sort.go:109-121 | elements that the order does not tell apart stay in the order they were in |
| `RoomOrder.LevelsAreClasses` | sync3/sort.go:172-203 | the nested notification-level comparison compares four classes of rooms |
| `RoomOrder.NamesTransitive` | sync3/sort.go:137-146 | name comparison is transitive |
| `RoomOrder.CompareAllIsPreorder` | sync3/sort.go:109-121 | the lexicographic combination of the five comparators is antisymmetric and transitive |
| `RoomOrder.LessIsStrictWeakOrder` | sync3/sort.go:109-214 | any list of sort keys gives a strict weak order, so sorting is well defined |
| `RoomOrder.CompareExactly` | sync3/sort.go:137-214 | each comparator puts one room first exactly as its sort order says on the rooms' own fields: names by the first differing character, recency and both counts larger first, notification level with highlights first, then notifications, of which encrypted rooms first |
| `RoomOrder.FirstKeyDecides` | sync3/sort.go:109-121 | of several sort orders the first under which two rooms do not tie decides |
| `SortableRooms.RoomList.constructor` | sync3/sort.go:23-30 | holds the rooms in the given order, with no index yet |
| `SortableRooms.RoomList.IndexOf` | sync3/sort.go:32-35 | an index found is the room's own; once the list has been sorted one is found exactly for the rooms in it |
| `SortableRooms.RoomList.Add` | sync3/sort.go:46-54 | appends a room not indexed yet and indexes it; a list whose index map is its inverse stays so |
| `SortableRooms.RoomList.Remove` | sync3/sort.go:62-75 | takes an indexed room out of its place, reports that place and moves later indexes down; a list whose index map is its inverse stays so |
| `SortableRooms.RoomList.Sort` | sync3/sort.go:89-127 | sorts stably, in the order that `SortableRooms.ResortedOrder` spells out, and rebuilds the index map; an unknown order leaves everything as it was and is the only error |
| `SortableRooms.ResortedKeeps` | sync3/sort.go:89-127 | sorting loses and invents no room |
| `SortableRooms.ResortedOrder` | sync3/sort.go:89-214 | in the sorted list, of any two rooms the one further up comes first under the first sort order on which their own fields do not tie, and rooms that tie throughout keep their order |
| `ListClient.Client.IsIndexInRange` | client/sync.js:459-466 | true exactly for the tracked indexes |
| `ListClient.Client.ShiftRight` | client/sync.js:400-412 | the loop's effect in closed form: each tracked index takes its left neighbour's room |
| `ListClient.Client.ShiftLeft` | client/sync.js:414-426 | the loop's effect in closed form: each tracked index takes its right neighbour's room |
| `ListClient.Client.MaxIndex` | client/sync.js:429-435 | the largest index present, -1 for an empty map |
| `ListClient.Client.RemoveEntry` | client/sync.js:428-442 | closes the gap at an index by shifting everything above it left |
| `ListClient.Client.AddEntry` | client/sync.js:444-457 | makes room at an index by shifting everything from it right |
| `ListClient.Client.InvalidateRange` | client/sync.js:354-367 | forgets every index of the range |
| `ListClient.Client.SyncRange` | client/sync.js:368-385 | writes the given rooms into the range |
| `ListClient.Client.ProcessOps` | client/sync.js:302-397 | the whole operation loop, gap handling included, replays a response as the step function says, and throws exactly at the first null operation, with everything before it applied |
| `ListClient.StepsAppend` | client/sync.js:302-388 | replaying a response is replaying its parts in turn |
| `ListClient.StepsGap` | client/sync.js:302-388 | the gap left open depends on the operations alone, not on what the client shows |
| `ListClient.InsertMovesRight` | client/sync.js:318-353 | with no gap open, an INSERT where a room is shown moves every tracked room from there on one place right, the last one included |
| `ListOps.OpsForPairs` | sync3/ops.go:77-140 | one DELETE/INSERT pair, nothing, or a lone DELETE for each reported move, with the rooms to send in full; which updates send nothing is `Subscriptions.SilentExactly`, which rooms are sent `Subscriptions.SubsExactly` and `Subscriptions.DelSubsExactly` |
| `ListOps.Resort` | sync3/ops.go:46-56 | re-sorts the list in place and finds the room's new index |
| `ListOps.CalculateListOps` | sync3/ops.go:32-142 | the new list, the operations and the rooms to send are the specified ones for Add, Change and Del, about which the `Replica`, `OpenGap` and `Subscriptions` rows are, or the out-of-range access happens exactly where specified |
| `ListOps.PanicStays` | sync3/ops.go:82-86 | one out-of-range access ends the calculation, whatever other moves are reported |
| `Replica.SwapEffect` | client/sync.js:308-353 | a DELETE and an INSERT inside one range move one entry and write it, slot by slot |
| `Replica.AfterIsMove` | sync3/ops.go:32-75 | one key change or one new room moves exactly that room |
| `Replica.SwapStep` | sync3/request.go:247-261 | the pair for one range brings that range in line with the new list and touches no other range |
| `Replica.DropStep` | sync3/ops.go:94-107 | a lone DELETE, its gap closed, brings its range in line with the shorter list while the ranges still to come keep showing the old one, except perhaps where their own DELETE will be |
| `Replica.ReplayMoved` | sync3/ops.go:82-140 | replaying the operations of all moved ranges, one after another, brings all of them in line |
| `Replica.AddOrChangeAgrees` | sync3/ops.go:32-142 | after an Add or Change the client's map equals the new list at every tracked index, with no gap left open |
| `Replica.DelAgrees` | sync3/ops.go:32-142 | after a Del whose operations end the response the client's map equals the shorter list at every tracked index |
| `Replica.DelFailsExactly` | sync3/ops.go:57-86 | a Del reads past the list or sends a null operation exactly when a range starts at the removed last index, or the list empties with index 0 untracked |
| `Subscriptions.SubsExactly` | sync3/ops.go:112-139 | an Add or Change sends its own room in full exactly when the room is at a tracked index now and is new or was at an untracked one, and another room exactly when the move shifts it into the far end of a range it reaches |
| `Subscriptions.DelSubsExactly` | sync3/ops.go:94-139 | a Del sends exactly the rooms it shifts into the end of a range it reaches, that at the new last index only if neither the removed nor the old last index was tracked |
| `Subscriptions.SilentExactly` | sync3/ops.go:77-93 | an Add or Change sends no operation exactly when no range meets the move, or when it is a Change that leaves its room where it was |
| `Subscriptions.AddOrChangeSubsComplete` | sync3/ops.go:112-139 | after an Add or Change every room that comes into view is sent in full |
| `Subscriptions.DelSubsComplete` | sync3/ops.go:112-139 | after a Del the rooms sent are complete except exactly when a tracked index before the last is removed, the new last index is tracked and the old last index is not |
| `OpenGap.DelLeavesGap` | sync3/ops.go:94-107 | a Del leaves a gap open exactly when the last two indexes are tracked and no range lies between the removed index and the range of the last index but one, and this is where |
| `OpenGap.NextInSync` | client/sync.js:308-353 | from any client in sync, gap open or not, an Add, Change or Del that may follow leaves it in sync with the new list |
| `OpenGap.OthersDisagree` | client/sync.js:308-316 | any other update leaves every client wrong that shows nothing past the end of the list |
| `OpenGap.NextAgreesExactly` | client/sync.js:308-353 | for any valid ranges and any gap left open: an Add, Change or Del leaves every client in agreement if and only if it sends nothing, or its room is not above the gap, or it changes in place, or it is a new room that does not come last while the last room's range ends there |
| `Delta.SortedPoints` | sync3/range.go:159-182 | the sorted end points contain each end of each range once, in sweep order |
| `Delta.MembershipBetween` | sync3/range.go:189-252 | between two points an index is tracked by a side exactly when the sweep has that side open |
| `Delta.StepKeepsInv` | sync3/range.go:189-252 | no point opens an open side or closes a closed one, and each step leaves the result exact for all indexes passed |
| `Delta.SweepPoint` | sync3/range.go:189-252 | one loop body: skip a repeated point, fail on an unmatched one, else emit and advance |
| `Delta.ComputeDelta` | sync3/range.go:129-255 | added, removed and same are exact as sets of indexes, apart from uncovered single-index ranges, and the sweep never fails |
| `Delta.NothingLostExactly` | sync3/range.go:284-319 | the delta is exact without exception if and only if every single-index range is covered by the other side |
| `WindowSlide.InvalidateEffect` | sync3/handler/connstate.go:343-357 | the INVALIDATEs clear exactly the tracked indexes of their ranges below the list length |
| `WindowSlide.SyncEffect` | sync3/handler/connstate.go:362-379 | the SYNCs write exactly the list at the indexes of their ranges |
| `WindowSlide.SyncOpsShowSlices` | sync3/handler/connstate.go:362-379 | every SYNC is for indexes that exist, with exactly the rooms at those indexes |
| `WindowSlide.SlideAgreesExactly` | sync3/handler/connstate.go:269-379 | a change of ranges keeps every agreeing client in agreement if and only if no single-index range is forgotten |
| `WindowSlide.ResyncEffect` | sync3/handler/connstate.go:295-379 | with another order or filter every index shown before and not asked for again is taken back, and the ranges asked for show the new list |
| `WindowSlide.ResyncAgrees` | sync3/handler/connstate.go:295-379 | a first request, or one that changes the order or the filters, brings any client into agreement |
| `WindowSlide.AppendSyncs` | sync3/handler/connstate.go:362-379 | one SYNC for each range that has rooms, clamped to the list |
| `WindowSlide.OnIncomingListRequest` | sync3/handler/connstate.go:269-379 | the operations answer the request as specified, with the list re-sorted or rebuilt when the request asks for it |
| `ListSession.UpdatesKeepList` | sync3/ops.go:32-75 | any series of one-room updates keeps the list sorted and free of duplicates |
| `ListSession.UpdatesAgree` | sync3/ops.go:32-142 | replaying a response with any number of updates, Dels anywhere, keeps the client in agreement as long as each may follow the gap before it |
| `ListSession.MovesDeliverable` | sync3/ops.go:32-142 | a response of Adds and Changes is always such a one |
| `ListSession.RequestAgrees` | sync3/handler/connstate.go:269-379 | answering any request brings the client into agreement with the ranges and list it asks for |
| `ListSession.ExchangeInStep` | sync3/handler/connstate.go:269-379 | one request with its answer and live updates, each of which may follow the gap before it, keeps server and client in step |
| `ListSession.RunsStayInStep` | client/sync.js:302-397 | over any run of exchanges whose updates may each follow the gap before them, the client's map equals the server's list at every tracked index after every exchange |
| `SentRooms.UpdatesSend` | sync3/ops.go:112-139 | any series of updates none of which shows an unsent room sends every room it brings into view |
| `SentRooms.RequestSends` | sync3/handler/connstate.go:362-379 | answering a request sends every room in the ranges it asks for that has not been sent |
| `SentRooms.RunsSendAll` | sync3/handler/connstate.go:269-379 | over any run of exchanges every room at a tracked index has been sent in full, unless some Del was of the kind that `Subscriptions.DelSubsComplete` excepts |
| `Counterexamples.SingleIndexIsLost` | sync3/range.go:288-291 | the new range [5,5] is not reported as added |
| `Counterexamples.SlideCanForget` | sync3/range.go:288-291 | a slide from [0,0] to [1,1] over two rooms can leave the client without the second |
| `Counterexamples.RemovingTheLastFails` | sync3/ops.go:57-86 | removing the last of two rooms fails when a range starts there |
| `Counterexamples.EmptyingFails` | sync3/ops.go:57-66 | removing the only room fails when index 0 is untracked |
| `Counterexamples.RemovalShowsUnsentRoom` | sync3/ops.go:112-139 | removing the first of three rooms with a window of two shows a room that was not sent |
| `Counterexamples.TwoRemovalsDisagree` | client/sync.js:308-316 | removing the first and then the last of three rooms in one response leaves the client wrong |
| `Counterexamples.RemovalThenAddDisagrees` | client/sync.js:308-316 | removing the first of three rooms and then adding a new one leaves the client wrong, wherever the new one goes |
| `Counterexamples.CollisionReplacesOther` | state/accumulator.go:56-101 | rolled forward over an event with another key but the same tuple, a snapshot loses the first event |
| `Counterexamples.RepeatedOutOfOrder` | state/accumulator.go:240-247 | a block of one event, another with its type and state key, and the first again is out of order |
| `Counterexamples.SharedIdOutOfOrder` | state/accumulator.go:240-247 | so is a block of two events with one ID and different types or state keys |
| `Counterexamples.StateBlockReadIsAhead` | state/storage.go:555-567 | read at its state-block event, a room already has a state event stored later |
| `Counterexamples.BulkKeepsInvite` | sync3/dispatcher.go:133-151 | in bulk an invited member who has left stays invited, one event at a time they do not |
| `Counterexamples.LazyFilterDependsOnQuery` | sync3/caches/global.go:199-218 | a custom state event keyed by a timeline user is kept by the filter but never fetched |
| `EventLog.SelectedShort` | state/event_table.go:220-228 | selecting events by row number comes up short exactly when a row is missing or asked for twice |
| `EventLog.FoldExactly` | state/accumulator.go:684-701 | the state of a room has under each type and state key exactly the last row that set it, an event of a state block without a state key counting as having the empty one |
| `EventLog.SelectedRepresents` | state/event_table.go:220-228 | selecting a snapshot's events by row number returns all of them and the same state |
| `EventLog.RepresentsOneState` | state/accumulator.go:684-701 | a list of row numbers stands for at most one state |
| `Snapshots.TupleKeyInjective` | state/accumulator.go:61-66 | the joined type and state key determine both, if types have no unit separator |
| `Snapshots.TupleKeyCollides` | state/accumulator.go:61-66 | two different pairs with the same joined key, when they do |
| `Snapshots.DistinctExactly` | state/accumulator.go:68-83 | a snapshot has no tuple twice exactly when no two keys of the state it holds share one |
| `Snapshots.CalculateNewSnapshot` | state/accumulator.go:56-101 | fails exactly when the old snapshot has a tuple twice; otherwise puts the event in place of the one with its tuple, or at the end, reports what it replaces, and the result has no tuple twice |
| `Snapshots.RollsExactly` | state/accumulator.go:56-101 | for a snapshot of any state and any new row: the call succeeds with a snapshot of the state with the event's key updated if and only if no two keys of that state share a tuple, and the row reported is then the one replaced |
| `RoomTables.NewSlotAt` | state/event_table.go:159-198 | inserting row by row stores an event unless the table or an earlier event of the batch has its ID |
| `RoomTables.InsertedPartial` | state/event_table.go:159-198 | inserting events, known ones wasting a row number, leaves everything earlier settled |
| `RoomTables.SettleRow` | state/accumulator.go:496-530 | recording the before-snapshot of the next row settles that row and disturbs no other row or room |
| `Accumulator.WithMembershipExactly` | state/event_table.go:91-104 | splitting row numbers into member and other events keeps each exactly once |
| `Accumulator.SplitRepresents` | state/accumulator.go:703-713 | a snapshot stored in two halves stands for the same state |
| `Accumulator.SplitNids` | state/accumulator.go:703-713 | the loop computes the two halves |
| `StateBlocks.InsertInto` | state/event_table.go:159-198 | the batch in the table row by row, and for each ID that was new the row number of its first copy |
| `StateBlocks.IngestAll` | state/accumulator.go:240-271 | every new event of a block, copies included, put under its key in turn |
| `StateBlocks.IngestsExactly` | state/accumulator.go:240-271 | for any block, with IDs repeated or even shared by different events: the ingested map has the rows of the fold over the whole history, each once, if and only if the last new event with each type and state key has an ID whose first copy is the newest stored event of its own type and state key, and no two of these last events share an ID |
| `StateBlocks.DistinctInOrder` | state/accumulator.go:240-271 | a block without repeated IDs is always so |
| `StateBlocks.EnumeratedExactly` | state/accumulator.go:703-713 | the listed values of a state map hold a state exactly when they are that state's rows, each once |
| `Accumulator.NidsOf` | state/accumulator.go:703-713 | one row number for each key of the state map, memberships apart from the rest, and the largest of them |
| `Accumulator.StateMapOf` | state/accumulator.go:715-734 | collecting a loaded snapshot gives back the state it stands for |
| `Accumulator.NewTimelineDistinct` | state/accumulator.go:570-655 | what is left of a timeline after parsing, deduplication and filtering comes from it and has distinct event IDs |
| `Accumulator.NewTimelineExactly` | state/accumulator.go:606-655 | a timeline of one event is taken whole, and of any other exactly what follows the last event already stored |
| `Accumulator.DeduplicatedExactly` | state/accumulator.go:570-603 | what is kept of a timeline is exactly the first event with each ID that parses, in timeline order |
| `Accumulator.ParsedExactly` | state/event_table.go:564-578 | of a state block one more event is kept, as the last, if it parses, and dropped if it does not |
| `Accumulator.CreateIsStored` | state/accumulator.go:396-396 | a create event, of type m.room.create with an empty state key, that is new among the events inserted is then in the room's state |
| `Accumulator.Store.ParseAndDeduplicate` | state/accumulator.go:570-603 | keeps the first of each event ID and skips what cannot be parsed |
| `Accumulator.Store.FilterToNew` | state/accumulator.go:606-655 | keeps what follows the last known event, and a single event always |
| `Accumulator.Store.Insert` | state/event_table.go:159-198 | stores unknown events in order, each ID once, and returns the row number of exactly the IDs that were new |
| `Accumulator.Store.SelectSnapshot` | state/accumulator.go:47-57 | fails exactly when a row of the snapshot is missing or repeated; otherwise its rows in ascending order; a snapshot that holds a state always loads and holds the same state |
| `Accumulator.Store.RollForward` | state/accumulator.go:502-526 | from a snapshot of the state before the event, the result is a snapshot of the fold over history up to it if and only if no two keys there share a tuple; what the event replaces is then found |
| `Accumulator.SeparableRolls` | state/accumulator.go:61-66 | events whose types have no unit separator can always be rolled over |
| `Accumulator.Store.SettleTimeline` | state/accumulator.go:439-564 | settling the inserted events in turn restores the invariant for the whole database if and only if they can be rolled over |
| `Accumulator.Store.Accumulate` | state/accumulator.go:346-566 | stores exactly the new events, or is rolled back with only row numbers wasted and everything still right; every before-snapshot stays equal to the fold over history and every current snapshot to the whole fold, with the events stored, if and only if no new event is state, or no two keys of the state with the new events share a tuple; in a room without a snapshot nothing changes if the first new event is of another type than m.room.create or has a state key that is not empty, and a create event that is new and stored is then in the room's state |
| `Accumulator.Store.StoreStateBlock` | state/accumulator.go:220-318 | stores a state block with one snapshot for all of it, reports whether it replaced one, and keeps the invariant if and only if the block's copies are in order, whatever IDs it repeats |
| `Accumulator.Store.LoadState` | state/accumulator.go:715-734 | loads exactly the state a snapshot holds |
| `Accumulator.Store.Initialise` | state/accumulator.go:182-321 | keeps the same invariant if and only if the block's copies are in order; changes nothing for an empty block, for one of which nothing parses, and, as bad data, for one without an m.room.create event with an empty state key in a room without a snapshot; a new create event is then in the room's state; reports the new snapshot and whether it replaced one |
| `StateAtPosition.RolledForwardState` | state/storage.go:569-601 | rolling a before-snapshot over its event gives the state after that event |
| `StateAtPosition.ReadIsHistoryExactly` | state/storage.go:517-607 | for a room with an event at or before the position: a read there returns the fold over history up to it if and only if the event found has a before-snapshot, or the room has a current snapshot and no state was stored after that event |
| `StateAtPosition.ReadFailsExactly` | state/storage.go:517-607 | a room is left out exactly when it has no event at or before the position, and fails the read exactly when that event has no before-snapshot and the room no current one |
| `StateAtPosition.ReadAtTheEnd` | state/storage.go:517-607 | at or past the last event a read returns the current state |
| `StateAtPosition.RollSnapshot` | state/storage.go:576-601 | replace what the event supersedes, else append it unless it is there |
| `StateAtPosition.RoomStateAfterEventPosition` | state/storage.go:517-607 | reads each room as specified and fails exactly when one of them has no snapshot to read |
| `StateAtPosition.LatestEventNIDInRooms` | state/storage.go:1102-1138 | the rooms table and the events table together give the last event at or before the position, for exactly the rooms that have one |
| `Pollers.SliceIsFiltered` | state/accumulator.go:606-655 | of a slice that overlaps what is stored exactly the unknown tail is left |
| `Pollers.InsertIsElsewhere` | state/event_table.go:159-198 | a state block, or any insert into another room, is one of the other calls of a run whatever it holds, and stores exactly the events not known yet |
| `Pollers.PollersLinearise` | sync2/poller.go:97-120 | whatever order overlapping timelines of several pollers arrive in, with any other calls in between: the stored timeline is the room's own as far as the furthest delivery, without gap, duplicate or reordering, if and only if no other call, such as a state block, is the first to store one of those events |
| `Pollers.StateBlockLeavesHole` | state/accumulator.go:606-655 | the smallest such run, with a timeline of three events: a state block with the second, then deliveries of the first two and the last two, leave the third alone in the stored timeline |
| `Visibility.CalculateVisibleEventNids` | state/storage.go:903-952 | the loop's last range is the one the scan specifies |
| `Visibility.DetermineJoinedRooms` | state/storage.go:1161-1189 | a room is in the result exactly when its own log leaves the user joined, with the NID of that join |
| `Visibility.JoinedExactly` | state/storage.go:1161-1189 | the user is joined exactly since the first join after they last left or were banned |
| `Visibility.ScanTracksJoins` | state/storage.go:903-952 | the range scan over changes since a position is joined exactly when the other fold over the whole log is, from the later of that join and the position on, and has closed the same range last |
| `Visibility.VisibleAgrees` | state/storage.go:891-969 | the incremental range equals the one the whole membership log determines |
| `Visibility.JoinedExactlyWhenOpen` | state/storage.go:891-952 | read from 0, the range runs to the end exactly when the log says joined, and then starts at the join, or when the last change is at the end and is a removal of a joined user or an invite of one not joined |
| `Visibility.BucketByRoom` | state/storage.go:892-901 | the buckets are the rooms' own logs in order |
| `Visibility.VisibleEventNidsBetween` | state/storage.go:875-969 | the result has exactly the rooms joined at the start or changed since, each with the range the whole log determines |
| `Conn.RepliesInOrder` | sync3/conn.go:137-250 | a reply is refused exactly for an unknown position, and otherwise is a buffered response after the request's position, the very next one if that is still buffered |
| `Conn.HandlerCalledExactly` | sync3/conn.go:137-250 | the handler is called exactly for an accepted first request, one with a changed body, or a new position with nothing later buffered; its answer gets the next position and the request's transaction ID and is the reply unless a later response is waiting; its error is passed on and the request forgotten |
| `Conn.RunsKeepInv` | sync3/conn.go:137-250 | over any run of requests the buffered positions stay consecutive up to the last one and never go back |
| `Conn.RepeatIsCached` | sync3/conn.go:155-216 | an accepted request repeated at once gets the same response without the handler being called, if and only if the handler, where it was called the first time, left the request's body alone |
| `Conn.FreshStartReturnsOldest` | sync3/conn.go:167-249 | a request at the start returns the oldest response still buffered |
| `Conn.Connection.constructor` | sync3/conn.go:68-75 | starts with nothing sent |
| `Conn.Connection.IsOutstanding` | sync3/conn.go:124-131 | true exactly for buffered positions |
| `Conn.Connection.Scan` | sync3/conn.go:167-181 | finds how many responses are acknowledged and the first one after the position |
| `Conn.Connection.OnIncomingRequest` | sync3/conn.go:137-250 | the new state, the reply and whether the handler ran are the specified ones |
| `Poller.DataErrorExactly` | sync2/poller.go:690-697 | an error counts as bad data exactly when a data error is among what it wraps or joins |
| `Poller.RoomsErrorRetries` | sync2/poller.go:928-954 | a mix of room errors is retried exactly when some one of them has no bad-data error anywhere inside it |
| `Poller.MergeRoomErrors` | sync2/poller.go:928-954 | merges the errors of a response's rooms as specified |
| `Poller.AdvancesExactly` | sync2/poller.go:549-659 | the since token advances exactly when an answer came, no more than 1000 requests had failed and every section error has bad data inside, and then to the answer's own; it is stored exactly if a minute has passed or there were to-device messages; any answer forgets earlier failures |
| `Poller.TemporaryErrorsExpire` | sync2/poller.go:549-605 | failed requests are counted, and the poll after 1001 in a row reports the token as expired |
| `Poller.RefusalExpires` | sync2/poller.go:584-605 | a failed request reports the token as expired at once exactly for the statuses 401 and 403 |
| `Poller.RunsKeepInv` | sync2/poller.go:549-659 | over any run, panics included, every answer the token moved past was handled without a retry, its to-device batch accepted exactly once, and nothing in between was skipped without being accepted or refused as bad data |
| `Poller.RefetchesExactly` | sync2/poller.go:511-659 | after a restart an accepted to-device batch is fetched again if and only if the run ended in a panic while storing the token after it |
| `Poller.ReleasedExactly` | sync2/poller.go:499-544 | however a run ends, whoever waits for the first sync is released exactly once, unless it ended in a panic before the first token, and then never |
| `Poller.SectionErrorsNeverExpire` | sync2/poller.go:553-639 | only failed requests count towards giving up; sections that keep failing are retried for ever |
| `Poller.PollLoop.constructor` | sync2/poller.go:523-529 | starts at the given token with nothing done |
| `Poller.PollLoop.ParseToDevice` | sync2/poller.go:699-708 | hands over to-device messages only if there are any |
| `Poller.PollLoop.HandleSections` | sync2/poller.go:608-639 | runs the sections in order up to the first retry, to-device messages last |
| `Poller.PollLoop.HandleAnswer` | sync2/poller.go:608-659 | an answer is retried, or moves the token on, stores it and releases the waiters as specified, up to a panic in the storing callback |
| `Poller.PollLoop.PollOnce` | sync2/poller.go:549-659 | one poll moves the loop to the specified state |
| `Poller.PollLoop.Run` | sync2/poller.go:499-544 | the loop ends in the specified state, a termination at its head reporting no expired token, with the waiters of the first sync released once unless it panicked before the first token |
| `EnsurePoller.RunsKeepInv` | sync3/handler/ensure_polling.go:63-184 | however requests, notifications, wakeups, completions and expiries interleave, no channel is closed twice or while nil, an entry has a channel exactly while not done, every waiter's channel is closed or the one stored for its device, and every channel has been asked for or is about to be |
| `EnsurePoller.CompletionFreesAll` | sync3/handler/ensure_polling.go:130-167 | the end of an initial sync frees every request waiting for the device |
| `EnsurePoller.ExpiryLatches` | sync3/handler/ensure_polling.go:158-184 | once expired, a device stays so whatever happens, and its next request asks for a new poll |
| `EnsurePoller.ExpiredExactly` | sync3/handler/ensure_polling.go:63-184 | over any run a device is expired exactly if its token expired while it was known, or its initial sync ended in failure while not done, and no request for it has come since |
| `EnsurePoller.DoneExactly` | sync3/handler/ensure_polling.go:63-184 | over any run a device's initial sync counts as done exactly if it has ended and no request since has found the device expired |
| `EnsurePoller.KnownExactly` | sync3/handler/ensure_polling.go:63-184 | over any run a device is known exactly if it was requested or its initial sync has ended |
| `EnsurePoller.ExpiredForAReason` | sync3/handler/ensure_polling.go:112-128 | a request returns as expired only after an expired token or a failed initial sync of its device |
| `EnsurePoller.WaitEnds` | sync3/handler/ensure_polling.go:112-167 | a wait that the end of the sync frees returns as expired exactly if the sync failed or the token expired meanwhile; the next request is answered at once if not, and asks for a new sync if so |
| `EnsurePoller.WaitsForSyncExactly` | sync3/handler/ensure_polling.go:60-128 | over any run some request returns before an initial sync completed on its channel if and only if some request found its device expired with a channel open; every other return, at once or after a wait, comes after a completed initial sync of its device |
| `EnsurePoller.SupersededReturnsEarly` | sync3/handler/ensure_polling.go:77-127 | in any reachable state, a request that finds its device expired with a channel open makes an earlier request return as unexpired with no sync completed |
| `EnsurePoller.SupersededRun` | sync3/handler/ensure_polling.go:77-127 | a run of five steps in which that happens |
| `EnsurePoller.Poller.constructor` | sync3/handler/ensure_polling.go:41-47 | starts with no device known |
| `EnsurePoller.Poller.EnsurePolling` | sync3/handler/ensure_polling.go:63-109 | the locked section answers, joins an existing wait or starts a new one as specified, and keeps the channel invariant |
| `EnsurePoller.Poller.OnInitialSyncComplete` | sync3/handler/ensure_polling.go:130-167 | marks the device done, closes its one channel, and marks it expired if the sync failed, never the other way; over runs this is `EnsurePoller.ExpiredExactly` and `EnsurePoller.DoneExactly` |
| `EnsurePoller.Poller.OnExpiredToken` | sync3/handler/ensure_polling.go:169-184 | marks a known device expired and nothing else |
| `TxnIdWaiter.WaitsExactly` | sync3/handler/txn_id_waiter.go:29-64 | an update waits exactly if delays are on and it is the user's own event without state key and transaction ID, or an event of a room in which one waits; all else goes out at once |
| `TxnIdWaiter.StaysCovered` | sync3/handler/txn_id_waiter.go:66-94 | after publishing up to a NID every event still held has its timer pending or stands behind one with a larger NID that has |
| `TxnIdWaiter.AllPublishedInOrder` | sync3/handler/txn_id_waiter.go:29-94 | whatever the NIDs and whatever order timers fire in, each room's updates are published in the order of ingestion, none lost or repeated, and all of them once its timers have fired |
| `TxnIdWaiter.PublishedInTime` | sync3/handler/txn_id_waiter.go:60-94 | with timers fired in the order they were started an event is published by its own deadline |
| `TxnIdWaiter.Waiter.constructor` | sync3/handler/txn_id_waiter.go:18-27 | starts with no queue |
| `TxnIdWaiter.Waiter.IngestUpdate` | sync3/handler/txn_id_waiter.go:29-64 | publishes at once or queues and starts a timer, as specified, and keeps the invariant |
| `TxnIdWaiter.Waiter.PublishUpToNid` | sync3/handler/txn_id_waiter.go:66-94 | publishes the queue's head up to the NID in order and drops an empty queue |
| `Tracker.NextKeepsInverse` | sync3/tracker.go:35-232 | every call keeps the two joined maps inverses of each other |
| `Tracker.TracksLastCall` | sync3/tracker.go:35-232 | after any run of calls all three maps say what the last call about each user and room said |
| `Tracker.JoinedRoomsTracker.IsUserJoined` | sync3/tracker.go:56-66 | the search through the room's users says yes exactly for a joined user, and so exactly when the user's own rooms have the room |
| `Tracker.JoinedRoomsTracker.UsersJoinedRoom` | sync3/tracker.go:79-115 | updates all three maps as specified and reports whether somebody is new |
| `Tracker.JoinedRoomsTracker.UserLeftRoom` | sync3/tracker.go:120-138 | updates all three maps as specified and reports whether the user was joined or invited |
| `Tracker.JoinedRoomsTracker.UsersInvitedToRoom` | sync3/tracker.go:178-189 | adds the users to the room's invites and changes nothing else |
| `Tracker.JoinedRoomsTracker.ReloadMembershipsForRoom` | sync3/tracker.go:199-232 | overwrites the room's members and takes the room from everybody no longer joined |
| `Tracker.JoinedRoomsTracker.Startup` | sync3/tracker.go:35-54 | loads all members of all rooms, and panics exactly on a tracker with an entry in either joined map |
| `Dispatcher.HearsExactly` | sync3/dispatcher.go:170-213 | after any run an event reaches a registered user exactly when they are joined once it has happened, by joining with it or by an earlier call that it does not undo, or when it is their leave or ban and they were joined or invited |
| `Dispatcher.DeliversExactly` | sync3/dispatcher.go:170-294 | after any run a delivery forces an initial exactly for the target of a join who was not joined, and carries the number of users joined, and for a member event invited, once the event has happened |
| `Dispatcher.HeardTwiceExactly` | sync3/dispatcher.go:200-212 | nobody hears of an event twice, except the global listener exactly when it is itself removed from the room |
| `Dispatcher.BulkMatchesLive` | sync3/dispatcher.go:122-168 | the bulk path leaves the same members joined as live events, and the same invited if and only if no member who has left had been invited |
| `Dispatcher.EventDispatcher.JoinedUsersForRoom` | sync3/tracker.go:159-176 | the joined users with a receiver, each once and never the global listener, with the count of all joined users |
| `Dispatcher.EventDispatcher.NotifyListeners` | sync3/dispatcher.go:269-294 | the global listener first, then the listed users with a receiver in order |
| `Dispatcher.EventDispatcher.OnNewEvent` | sync3/dispatcher.go:170-213 | updates the tracker and delivers once to exactly those who hear of the event, with the counts after it and a forced initial exactly for a newly joined target |
| `Dispatcher.EventDispatcher.NotifyOfBlock` | sync3/dispatcher.go:152-167 | everybody joined once the block is in hears of each of its events once, with the final counts and no forced initial |
| `Dispatcher.EventDispatcher.OnNewInitialRoomState` | sync3/dispatcher.go:122-168 | tracks and delivers a first state block in bulk for a room without joined members, else one event at a time |
| `Receipts.PackKeepsWinner` | state/receipt_table.go:167-203 | each event and user keeps the last unthreaded receipt of a kind, and the first one only if there is none (MSC4102) |
| `Receipts.WinnerShown` | state/receipt_table.go:167-203 | the last unthreaded receipt of a kind for an event and user, or the first if all are threaded, is shown with its time and thread, under m.read.private if private and m.read if not |
| `Receipts.ShownHasWinner` | state/receipt_table.go:167-203 | nothing else is shown |
| `Receipts.RoundTrip` | state/receipt_table.go:167-254 | unpacking and packing again is the identity, whatever order receipts come out in |
| `Receipts.LiveIsBatch` | sync3/extensions/receipts.go:34-84 | live receipts added one at a time leave each room the packing of all its receipts at once |
| `Receipts.PackReceiptsIntoEdu` | state/receipt_table.go:167-203 | the loop packs as specified and mentions no event without a receipt |
| `Receipts.UnpackReceiptsFromEdu` | state/receipt_table.go:205-254 | every packed receipt comes out once, split by kind |
| `Receipts.ReceiptsResponse.AppendLive` | sync3/extensions/receipts.go:34-84 | adds one receipt to its room's packed event, by repacking if there is one, and ignores rooms out of scope |
| `RequiredState.IncludeExactly` | internal/required_state_map.go:30-63 | exactly the events some entry matches are included, unless all state is asked for and exact entries for the type narrow it |
| `RequiredState.QueryCovers` | internal/required_state_map.go:75-93 | nothing the filter would include is left out of the query, nor any member when they are lazily loaded |
| `RequiredState.QueryExactly` | internal/required_state_map.go:75-93 | the query fetches everything exactly if there are no entries or one has the type "*", otherwise a whole type exactly if an entry has it with the key "*" or it is m.room.member and lazily loaded, and else the keys named, "$ME" being the user |
| `RequiredState.FetchThenFilter` | sync3/caches/global.go:199-218 | fetching and then filtering equals filtering the whole state exactly when no state of a timeline user is missed; member events never are |
| `RequiredState.IncludeEvent` | internal/required_state_map.go:30-63 | the searching loops decide exactly whether an event is included |
| `RequiredState.RequiredStateMap` | sync3/request.go:649-676 | sorts the entries into wildcard and exact ones as specified |
| `RequiredState.QueryStateMap` | internal/required_state_map.go:75-93 | the query is the specified one |

## Left out

- HTTP, JSON encoding, SQL text, logging, metrics, tracing, configuration, database migrations and snapshot cleanup.
- Lists requested with slow_get_all_rooms, and the room filters (the filtered list is a parameter of the request model).
- Debug-mode assertions (SYNCV3_DEBUG): they only log by default, and the model follows the default.
- Room subscriptions outside lists, timelines, room names, heroes, bump stamps, typing, account data and device data.
- The list-wide count and the decoding of a request into deltas (`ApplyDelta`): the model starts from the resulting ranges and sort order.
- Redactions, invites, space relations, prev_batch tokens and the missing_previous flag in the event store.
- The filtered query of `RoomStateAfterEventPosition`: only the unfiltered path is modelled; its effect is what `RequiredState.Fetched` says.
- Ephemeral events and receipts in the dispatcher, and registering receivers: the same recipients as a live event.
- `ReceiptsRequest.ProcessInitial`: a database read followed by the modelled packing.
- Replica.DelAgrees: about a Del whose operations end the response; `OpenGap.NextInSync` and `ListSession.UpdatesAgree` are about what may follow.
- Pollers.PollersLinearise: assumes each timeline starts no later than the first event not delivered yet; a gappy timeline is marked missing_previous by the code, which is not modelled.
- Poller.RefetchesExactly: a token handed over for storage counts as stored; the storage callback reports no error to the poller.
- Dispatcher.EventDispatcher.OnNewEvent: registration and membership do not change in the middle of one call, though the code takes their locks separately.
- RequiredState.FetchThenFilter: users in a timeline are a set, so a user listed twice adds an event once.
- ListClient.Client.ProcessOps: room IDs are never the empty string, which the client's truth tests would treat as absent.
