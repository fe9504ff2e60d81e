# lis: leases, clocks and merges, in Dafny

This project models the core of lis, a globally distributed file store.
The core decides which actor may write to which part of the namespace, and
how replicas that diverged during a network split are reconciled. The
model covers these parts:

- **Hybrid logical clocks.** Both clocks are modelled: the one in
  `src/rhc/hlc.rs` (`Hlc`) and the offset clock in `rhc/src/time.rs`
  (`HybridTime`). Wall-clock readings are parameters.
- **Path-scoped leases.** The lease scopes and lease records of
  `src/rhc/leases/` are modelled (`Leases`), along with the table that
  indexes them by path (`LeaseTable`) and the node's lease manager
  (`LeaseManagement`).
- **Domain leases.** The domain-keyed lease manager of `rhc/src/lease.rs`
  is modelled (`RhcLease`).
- **CRDTs.** The LWW register, PN counter, OR-set, MV register and RGA
  sequence are modelled, together with the lease table built from LWW
  registers (`LeaseCrdt`).
- **BFT bookkeeping.** The BFT round engine of `rhc/src/consensus.rs` is
  modelled, with the share counting of its threshold aggregator
  (`RhcConsensus`, `RhcCrypto`). It is followed by the key-value store
  that commits are applied to (`RhcStorage`).
- **Byte and block arithmetic.** These modules cover the file system
  layer: the POSIX permission helpers of `src/fuse.rs`, the block layout
  of `src/fuse_fs.rs`, the chunked files of `src/objects/file.rs`, and the
  helpers and constructors of `src/lis-proto-1/`.
- **Example programs.** The storage and consensus simulations under
  `examples/` and `tests/` are modelled too. Each self-contained program
  is a module of its own.

Code that changes state in place is modelled as classes. Their fields
are the source's fields, and their methods carry `modifies` clauses.
Each method is proved against a pure function of the old state. Pure
code is modelled as datatypes and functions. The properties the source
promises are lemmas about those functions:

- merge laws;
- round trips;
- mutual exclusion of leases;
- the effect of every error path the source takes, except the failed channel sends of the BFT engine (see "Left out").

Locks and atomics become sequential updates. Clock readings, lease ids
and the answers of foreign calls (BLS, Ed25519, blake3, bincode, iroh)
become parameters.

Where the source and its own comments or tests disagree, the
disagreement is listed under "Findings", with a lemma showing the input.
The model then goes one of two ways:

- It runs the corrected behaviour for the HLC update, RGA insertion and
  the write loop of `src/objects/file.rs`. The stateful members
  `Hlc.Clock.Update`, `Rga.RGA.InsertAfter` and `ObjectsFile.LisFile.Write`
  run the corrected steps, and so does every member that updates a clock.
  The code as written is modelled only as pure functions:
  `Hlc.UpdateAsWritten`, `Rga.InsertedAsWritten` and the `AsWritten` cut of
  `ObjectsFile.WriteOutcome`. "Left out" lists these members.
- It follows the source for round-keyed BFT shares, for the minority
  election and for the register merge on tied timestamps. There the
  corrected rule is a separate function or method.
- The membership demo is modelled both as written and as intended.

Limits that follow from the demos' own design, and that no comment or
test of the source claims away, are stated as lemmas under "Model"
rather than listed as findings:

- the byte-sum file hash (`VariableBlockStorage.SwappedStemsCollide`,
  `VariableBlockStorage.SameHashServesLaterData`,
  `O1Storage.SameHashServesLaterData`);
- block ids of the form `n * 1000 + index`
  (`O1Storage.IdsOverflowIntoNextFile`, `O1Storage.LaterFileTakesOverBlock`,
  `FuseFs.LargeWriteReachesNextInode`);
- a commit index raised past the end of the log
  (`StateMachineReplication.CommitBeforeAppend`).

## Model

| member | source | states |
|---|---|---|
| HybridTime.SuccessiveNowIncreases | rhc/src/time.rs:20-28 | two successive `now()` readings: the logical value goes up by exactly one, and the second stamp is strictly later when the UTC reading has not gone back |
| HybridTime.UpdateNeverDecreases | rhc/src/time.rs:30-39 | `update` never lowers the offset or the counter; the offset changes only to a positive remote-minus-local difference; the counter ends at least `remote.logical + 1` |
| HybridTime.NowAfterUpdateIsLater | rhc/src/time.rs:20-39 | after `update(remote)` the next `now()` has a larger logical value than the remote, and with a non-negative offset and a non-decreasing UTC reading it is strictly later than the remote |
| HybridTime.HybridClock.constructor | rhc/src/time.rs:13-18 | offset and counter start at zero |
| HybridTime.HybridClock.Now | rhc/src/time.rs:20-28 | returns UTC plus offset with the old counter, and the counter advances by one (`fetch_add`) |
| HybridTime.HybridClock.Update | rhc/src/time.rs:30-39 | the cells become those of the `update` rule: `fetch_max` of a positive difference into the offset, `fetch_max` of `remote.logical + 1` into the counter |
| Hlc.Wrap32 | src/rhc/hlc.rs:113-116 | the `as u32` cast leaves a value below 2^32 unchanged |
| Hlc.OrderIsStrictTotal | src/rhc/hlc.rs:18-24 | the derived ordering (physical, then logical) is irreflexive, asymmetric, transitive and total |
| Hlc.IsWithinDrift | src/rhc/hlc.rs:48-56 | accepted exactly when the timestamp is at most 60 000 ms ahead of the local reading; any past timestamp is accepted |
| Hlc.NowAdvances | src/rhc/hlc.rs:91-116 | `now()` moves the cells strictly forward: to the wall time with logical 0 when the wall is ahead, else same physical with logical + 1; the returned stamp is later than the previous `last()` while the cast does not wrap |
| Hlc.UpdateAsWrittenNotMonotone | src/rhc/hlc.rs:136-149 | the update as written returns a timestamp below the previous `last()` for last (100,5) with remote (50,0) at wall 100, and with remote (100,0) at wall 50 |
| Hlc.CorrectedUpdate | src/rhc/hlc.rs:118-160 | refused exactly when the remote is beyond the drift bound, with the `ClockDriftExceeded` fields; otherwise the physical part is the maximum of wall, remote and last |
| Hlc.UpdateAgreesWithAsWritten | src/rhc/hlc.rs:136-149 | the corrected update equals the code as written whenever the stored physical time is not the maximum |
| Hlc.UpdateCases | src/rhc/hlc.rs:259-310 | the three cases the tests exercise: remote ahead gives remote.logical + 1, equal times give max logical + 1, wall ahead gives logical 0 |
| Hlc.UpdateMonotone | src/rhc/hlc.rs:118-160 | an accepted corrected update is strictly later than both the previous `last()` and the remote timestamp, as long as the logical counter does not wrap |
| Hlc.StateAfterUpdate | src/rhc/hlc.rs:118-160 | the cells are unchanged on a drift refusal, and otherwise take the maximum physical time |
| Hlc.Clock.constructor | src/rhc/hlc.rs:75-81 | both cells start at zero, so `last()` is the zero timestamp |
| Hlc.Clock.Now | src/rhc/hlc.rs:91-116 | the cells become the `now()` successor of the old cells, strictly later, and the result is the new `last()` |
| Hlc.Clock.Update | src/rhc/hlc.rs:118-160 | the result is the corrected update of the old cells; a refusal leaves the cells unchanged; an accepted result becomes `last()` |
| CrdtBase.StringLessIsStrictTotal | src/rhc/crdt/mod.rs:41-43 | the derived ordering of actor names is irreflexive, asymmetric, transitive and total |
| LwwRegister.AssignOutcome | src/rhc/crdt/lww_register.rs:19-31 | `set` installs the value on an empty register or a strictly newer timestamp, ignores an equal or older one, and never lowers the timestamp |
| LwwRegister.AssignTest | src/rhc/crdt/lww_register.rs:85-102 | writes at 100 then 200 leave value2; a later write at 50 changes nothing |
| LwwRegister.JoinOutcome | src/rhc/crdt/lww_register.rs:50-63 | `merge` adopts the other side exactly when this side is empty or the other timestamp is strictly greater; the result is empty only when both are; its timestamp is at least both |
| LwwRegister.JoinIdempotent | src/rhc/crdt/lww_register.rs:50-63 | merging a register with itself changes nothing |
| LwwRegister.JoinAssociative | src/rhc/crdt/lww_register.rs:50-63 | merge is associative, ties included |
| LwwRegister.JoinCommutativeOnDistinctTimestamps | src/rhc/crdt/lww_register.rs:50-63 | merge is commutative when the timestamps differ or a side is empty |
| LwwRegister.TieBrokenJoinCommutative | src/rhc/crdt/lww_register.rs:118 | the merge that breaks a timestamp tie by an order on values is commutative, ties included |
| LwwRegister.TieBrokenAgreesOffTies | src/rhc/crdt/lww_register.rs:50-63 | off a timestamp tie the tie-broken merge is the merge as written |
| LwwRegister.JoinTieKeepsReceiver | src/rhc/crdt/lww_register.rs:58-61 | on equal timestamps each side keeps its own value, so merge is not commutative there |
| LwwRegister.HappensBeforeFacts | src/rhc/crdt/lww_register.rs:66-72 | `happens_before` is a strict order, holds exactly when the other side is set and strictly newer, and then merge yields the other side |
| LwwRegister.LWWRegister.constructor | src/rhc/crdt/lww_register.rs:14-16 | a new register is empty |
| LwwRegister.LWWRegister.Set | src/rhc/crdt/lww_register.rs:19-31 | the contents become the `set` outcome of the old contents |
| LwwRegister.LWWRegister.Get | src/rhc/crdt/lww_register.rs:34-36 | a value exactly when the register is set, and then its stored value |
| LwwRegister.LWWRegister.Merge | src/rhc/crdt/lww_register.rs:50-63 | the contents become the merge of both old contents |
| PnCounter.SumRemove | src/rhc/crdt/pn_counter.rs:35-39 | the sum over a map splits into any one actor's count plus the sum of the rest |
| PnCounter.AddedEffect | src/rhc/crdt/pn_counter.rs:25-32 | adding for one actor raises only its count, by the amount, and raises the sum by the amount |
| PnCounter.MaxMergeCount | src/rhc/crdt/pn_counter.rs:53-65 | the merged count of each actor is the larger of the two, a missing actor counting as 0 |
| PnCounter.MaxMergeCommutativeIdempotent | src/rhc/crdt/pn_counter.rs:53-65 | merge is commutative and idempotent |
| PnCounter.MaxMergeAssociative | src/rhc/crdt/pn_counter.rs:53-65 | merge is associative |
| PnCounter.BasicTest | src/rhc/crdt/pn_counter.rs:83-95 | +5 and +3 give 8; a further -2 gives 6 |
| PnCounter.MergeTest | src/rhc/crdt/pn_counter.rs:97-118 | per-actor maxima 5 and 3 with a negative 2 give the value 6 |
| PnCounter.PNCounter.constructor | src/rhc/crdt/pn_counter.rs:17-22 | both maps start empty |
| PnCounter.PNCounter.Increment | src/rhc/crdt/pn_counter.rs:25-27 | the positive map gains the amount for the actor; the negative map is unchanged |
| PnCounter.PNCounter.Decrement | src/rhc/crdt/pn_counter.rs:30-32 | the negative map gains the amount for the actor; the positive map is unchanged |
| PnCounter.PNCounter.Value | src/rhc/crdt/pn_counter.rs:35-39 | the value is the positive sum minus the negative sum |
| PnCounter.PNCounter.Merge | src/rhc/crdt/pn_counter.rs:53-65 | each map becomes the per-actor maximum merge of both old maps |
| PnCounter.SumOf | src/rhc/crdt/pn_counter.rs:36-37 | the loop over the keys computes the sum of the map |
| PnCounter.MergeInto | src/rhc/crdt/pn_counter.rs:55-58 | one merge loop yields the per-actor maximum merge |
| OrSet.AddEffect | src/rhc/crdt/or_set.rs:24-30 | `add` makes the element present with its old tags plus the new tag, and changes no other element |
| OrSet.RemoveEffect | src/rhc/crdt/or_set.rs:33-35 | `remove` drops the element with all its tags, and changes no other element |
| OrSet.UnionEffect | src/rhc/crdt/or_set.rs:54-61 | after merge an element is present iff it was on either side, with the tags of both |
| OrSet.UnionCommutativeIdempotent | src/rhc/crdt/or_set.rs:54-61 | merge is commutative and idempotent |
| OrSet.UnionAssociative | src/rhc/crdt/or_set.rs:54-61 | merge is associative |
| OrSet.MergeRestoresRemoved | src/rhc/crdt/or_set.rs:31-35 | no removal record is kept: merging a replica that still holds a removed element brings it back |
| OrSet.AddRemoveTest | src/rhc/crdt/or_set.rs:79-96 | two adds give two tags, and a remove makes the element absent |
| OrSet.MergeTest | src/rhc/crdt/or_set.rs:98-117 | replicas that added different elements both hold both after a merge |
| OrSet.ORSet.constructor | src/rhc/crdt/or_set.rs:17-21 | a new set is empty |
| OrSet.ORSet.Add | src/rhc/crdt/or_set.rs:24-30 | the entries become the `add` outcome with the tag (actor, timestamp) |
| OrSet.ORSet.Remove | src/rhc/crdt/or_set.rs:33-35 | the entries lose the element |
| OrSet.ORSet.Elements | src/rhc/crdt/or_set.rs:43-45 | lists exactly the present elements, each once |
| OrSet.ORSet.Tags | src/rhc/crdt/or_set.rs:48-50 | none exactly for an absent element, else its tag set |
| OrSet.ORSet.Merge | src/rhc/crdt/or_set.rs:54-61 | the entries become the union of both old entries |
| MvRegister.SetEffect | src/rhc/crdt/mv_register.rs:51-70 | `set` leaves exactly one value, the new one, under the key (actor, timestamp), and it supersedes the key of every value held before |
| MvRegister.MergedMembership | src/rhc/crdt/mv_register.rs:89-108 | a value survives a merge iff it is on either side and no other value on either side supersedes it |
| MvRegister.MergedCommutativeAntichain | src/rhc/crdt/mv_register.rs:89-108 | merge is commutative and leaves no value superseding another |
| MvRegister.MergedIdempotent | src/rhc/crdt/mv_register.rs:89-108 | merging a register whose values supersede none of each other into itself changes nothing |
| MvRegister.NewWriteSupersedesOld | src/rhc/crdt/mv_register.rs:51-108 | a write under a fresh key wins over the replica it was made on, whichever way round the merge runs |
| MvRegister.ConcurrentTest | src/rhc/crdt/mv_register.rs:126-144 | two first writes on different replicas both survive a merge |
| MvRegister.SupersedingTest | src/rhc/crdt/mv_register.rs:146-160 | a second write leaves a single value, the second one |
| MvRegister.MVRegister.constructor | src/rhc/crdt/mv_register.rs:44-48 | a new register holds no value |
| MvRegister.MVRegister.Set | src/rhc/crdt/mv_register.rs:51-70 | the values become the `set` outcome of the old values |
| MvRegister.MVRegister.Get | src/rhc/crdt/mv_register.rs:73-75 | lists the value of each version held, one entry per version |
| MvRegister.MVRegister.GetVersioned | src/rhc/crdt/mv_register.rs:78-80 | lists every version held, once each |
| MvRegister.MVRegister.Merge | src/rhc/crdt/mv_register.rs:89-108 | the values become the merge of both old value sets |
| Rga.IdLessIsStrictTotal | src/rhc/crdt/rga.rs:17-21 | the derived ordering of element ids (actor, then timestamp) is a strict total order |
| Rga.Walk | src/rhc/crdt/rga.rs:90-109 | a walk that stops visits nothing exactly when it starts at no stored element, and otherwise starts at `cur` and follows `next` pointers |
| Rga.Chain | src/rhc/crdt/rga.rs:90-109 | the chain from `cur` is empty exactly when `cur` is not stored, and otherwise starts at `cur` and follows `next` pointers |
| Rga.NewIsEmpty | src/rhc/crdt/rga.rs:32-47 | a new sequence chains only the root and `to_vec` gives nothing |
| Rga.DeleteKeepsChain | src/rhc/crdt/rga.rs:82-87 | `delete` changes no `next` pointer, so the chain from the root is unchanged |
| Rga.DeleteEffect | src/rhc/crdt/rga.rs:82-109 | deleting the k-th element of the chain drops exactly its value from `to_vec` and keeps every other value in place |
| Rga.DeleteOffChain | src/rhc/crdt/rga.rs:82-109 | deleting an id off the chain leaves `to_vec` unchanged |
| Rga.FirstGreater | src/rhc/crdt/rga.rs:116-121 | a found id is on the run and greater than the new id |
| Rga.FindIsFirstGreater | src/rhc/crdt/rga.rs:112-130 | along a walk that stops, `find_insert_position` gives the first id greater than the new one, or none |
| Rga.AsWrittenFoundKeepsPrevNext | src/rhc/crdt/rga.rs:57-61 | as written, when a successor is found `prev.next` is left as it was |
| Rga.LinkedFacts | src/rhc/crdt/rga.rs:57-76 | linking after `before` adds the new id, points `before` at it and it at `before`'s old successor, and changes nothing else |
| Rga.InsertKeepsEverything | src/rhc/crdt/rga.rs:50-79 | the corrected insertion after the j-th element splices the new id into the root chain right there and `to_vec` gains exactly its value there |
| Rga.AppendAtTail | src/rhc/crdt/rga.rs:50-79 | inserting after the last element appends its id to the chain and its value to `to_vec` |
| Rga.Typed | src/rhc/crdt/rga.rs:193-206 | typing text into a new sequence stores exactly the root and the typed ids |
| Rga.TypingAppends | src/rhc/crdt/rga.rs:193-206 | typing each character after the previous one chains the ids in typing order and `to_vec` yields the text |
| Rga.TypedDelete | src/rhc/crdt/rga.rs:208-221 | deleting the j-th typed character removes exactly it from `to_vec` |
| Rga.AsWrittenNoneFacts | src/rhc/crdt/rga.rs:57-69 | as written with nothing found: `prev.next` points at the new element, which has no successor |
| Rga.AsWrittenFinds | src/rhc/crdt/rga.rs:112-130 | from `c[i]` on a linked run, `find_insert_position` gives the first later id greater than the new one, or none |
| Rga.AsWrittenTruncates | src/rhc/crdt/rga.rs:50-79 | as written, when no later id is greater: the chain is cut after `prev` and ends at the new element, so every later element is lost |
| Rga.AsWrittenSomeFacts | src/rhc/crdt/rga.rs:57-76 | as written with a successor found: the new element is stored and no stored element's `next` changes |
| Rga.AsWrittenHides | src/rhc/crdt/rga.rs:50-79 | as written, when a successor is found: the new element is stored but the chain and `to_vec` are unchanged |
| Rga.LiveAsWrittenTruncates | src/rhc/crdt/rga.rs:50-79 | on typed text, the as-written insertion after character j keeps the text up to j, then the new value, and drops the rest |
| Rga.ChainedAsWrittenHides | src/rhc/crdt/rga.rs:50-79 | on typed text, the as-written insertion that finds a successor leaves `to_vec` unchanged |
| Rga.LiveCorrectedInsert | src/rhc/crdt/rga.rs:50-79 | on typed text, linking after position j puts the value at position j and keeps every character |
| Rga.InsertAsWrittenLosesSuccessor | src/rhc/crdt/rga.rs:50-79 | concrete: root, A, B; inserting X (above B) after A as written gives "AX" |
| Rga.InsertAsWrittenHidesNew | src/rhc/crdt/rga.rs:50-79 | concrete: inserting Y (below A) after the root of "A" as written stores Y and leaves "A" |
| Rga.CorrectedInsertKeepsSuccessor | src/rhc/crdt/rga.rs:50-79 | concrete: the corrected insertion of X after A in "AB" gives "ABX" |
| Rga.HelloTest | src/rhc/crdt/rga.rs:193-206 | five appends at the tail read "Hello" |
| Rga.DeleteTest | src/rhc/crdt/rga.rs:208-221 | deleting the middle of "ABC" leaves "AC" |
| Rga.InsertedOnChain | src/rhc/crdt/rga.rs:50-79 | the corrected insertion after `c[i]` links the new element right after the slot `c[i + k]` |
| Rga.AtTailBothAgree | src/rhc/crdt/rga.rs:50-79 | at the tail, the as-written and the corrected insertion agree |
| Rga.FindResultIsFirstGreater | src/rhc/crdt/rga.rs:112-130 | when the walk stops so does `find_insert_position`, with the first greater id on the walk |
| Rga.InsertedBeforeFound | src/rhc/crdt/rga.rs:50-79 | the corrected insertion puts the new element right before the id `find_insert_position` returns, or at the end of the walk when it returns none |
| Rga.InsertedStoresValue | src/rhc/crdt/rga.rs:64-69 | after insertion the returned id maps to the value, not deleted, and only that id is added |
| Rga.SelfLoopNeverStops | src/rhc/crdt/rga.rs:94-106 | an element that is its own successor makes the `to_vec` walk endless |
| Rga.SelfLoopDiverges | src/rhc/crdt/rga.rs:94-106 | the chain from such an element is undefined |
| Rga.MergedEffect | src/rhc/crdt/rga.rs:134-146 | after the merge loop an id is stored iff on either side, deleted iff deleted on either side, emptied when the other side deleted it, and otherwise kept as ours |
| Rga.MergedIdempotent | src/rhc/crdt/rga.rs:134-146 | merging a replica into itself changes nothing, and deleted elements stay empty |
| Rga.SortedIds | src/rhc/crdt/rga.rs:162-166 | `ordered.sort()` gives exactly the collected ids, strictly ascending |
| Rga.RelinkedChain | src/rhc/crdt/rga.rs:168-185 | after relinking with `ordered`, the chain from the root is the root followed by `ordered` |
| Rga.RebuiltChain | src/rhc/crdt/rga.rs:159-186 | after `rebuild_links` the chain from the root is the root followed by every other id in ascending order |
| Rga.RGA.constructor | src/rhc/crdt/rga.rs:32-47 | the root alone, with timestamp (0, 0) |
| Rga.RGA.FindInsertPosition | src/rhc/crdt/rga.rs:112-130 | the loop computes the first greater id reachable from `prev.next`, or none |
| Rga.RGA.InsertAfter | src/rhc/crdt/rga.rs:50-79 | returns the id (actor, timestamp), and the elements become the corrected insertion |
| Rga.RGA.Delete | src/rhc/crdt/rga.rs:82-87 | the element, if stored, is marked deleted and emptied |
| Rga.RGA.ToVec | src/rhc/crdt/rga.rs:90-109 | the loop returns the live values along the chain from the root |
| Rga.RGA.RebuildLinks | src/rhc/crdt/rga.rs:159-186 | `ordered` is the sorted non-root ids; the root points at the first; each id gets its neighbours in that order; no id is added or removed |
| Rga.RGA.Merge | src/rhc/crdt/rga.rs:134-150 | the ids are the union; values and deletion flags are those of the merge loop; the chain is then the root and every other id ascending |
| Leases.CoversCases | src/rhc/leases/lease.rs:44-56 | a file scope covers exactly its own path; a recursive directory every path at or below it; a non-recursive directory exactly its direct children |
| Leases.NonRecursiveWithinRecursive | src/rhc/leases/lease.rs:44-56 | whatever a non-recursive directory covers, its recursive form covers too, and it lies one component deeper |
| Leases.ScopePath | src/rhc/leases/lease.rs:78-84 | `path()` is none exactly for a block scope, and otherwise the scope's path |
| Leases.SpecificityCases | src/rhc/leases/lease.rs:60-75 | a block scope is never more specific, every path scope is more specific than a block, path scopes compare by component count, and the relation is a strict order |
| Leases.NewLeaseExpiry | src/rhc/leases/lease.rs:114-140 | a new lease is unrenewed and undelegated, and expired exactly from the millisecond `granted_at.physical + duration` on |
| Leases.DefaultLeaseExpiry | src/rhc/leases/lease.rs:225-238 | a 30 s lease granted at 1000 is live at 30 999 and expired at 31 000 |
| Leases.TimeRemaining | src/rhc/leases/lease.rs:143-150 | none exactly when the lease is expired, and otherwise the milliseconds left to its expiry |
| Leases.RenewEffect | src/rhc/leases/lease.rs:153-160 | renewal keeps id, scope, holder, grant time and parent, counts one more renewal, moves the expiry to `now + duration`, and leaves the lease live iff the duration is positive |
| Leases.RenewTest | src/rhc/leases/lease.rs:241-259 | renewing at 26 000 for 30 s moves the expiry from 31 000 to 56 000 and counts one renewal |
| Leases.Delegate | src/rhc/leases/lease.rs:163-173 | the child records its parent, has the given scope, holder and grant time, is unrenewed, and never outlives a live parent; children of an expired parent are born expired |
| LeaseTable.Without | src/rhc/leases/state.rs:76 | `retain` keeps exactly the other ids and never grows the list |
| LeaseTable.AddEffect | src/rhc/leases/state.rs:55-68 | `add_lease` stores the lease under its id, lists a path lease under its path, leaves the index alone for a block lease, and keeps the index consistent |
| LeaseTable.RemoveEffect | src/rhc/leases/state.rs:71-86 | `remove_lease` returns the lease iff it was stored, removes exactly it, keeps the index consistent, and on a well-indexed table leaves the id listed under no path |
| LeaseTable.CoveredPathsExtendScopePath | src/rhc/leases/state.rs:97-102 | every path a scope covers starts with the scope's path, which is what the index lookup by prefix relies on |
| LeaseTable.BlockScopesNeverBlocked | src/rhc/leases/state.rs:182-185 | a block scope is never refused |
| LeaseTable.StoredFileLeaseBlocks | src/rhc/leases/state.rs:165-186 | once an unexpired file lease is stored, another request for the same file is refused |
| LeaseTable.CleanupKeepsLiveLeases | src/rhc/leases/state.rs:120-161 | leases expiring soon are unexpired and expire within the window, and dropping expired leases changes neither `my_leases` nor the leases expiring soon |
| LeaseTable.LeaseState.constructor | src/rhc/leases/state.rs:36-42 | a new state holds no lease and an empty index |
| LeaseTable.LeaseState.GetLease | src/rhc/leases/state.rs:45-47 | the stored lease for the id, if any |
| LeaseTable.LeaseState.AddLease | src/rhc/leases/state.rs:55-68 | the state becomes the `add_lease` outcome, keeping the index consistent |
| LeaseTable.LeaseState.RemoveLease | src/rhc/leases/state.rs:71-86 | the state and the answer are the `remove_lease` outcome |
| LeaseTable.LeaseState.RenewStored | src/rhc/leases/state.rs:50-52 | the stored lease is replaced by its renewal; nothing else changes |
| LeaseTable.LeaseState.FindLeaseForPath | src/rhc/leases/state.rs:89-117 | returns a most specific unexpired covering lease, and none exactly when no stored lease covers the path unexpired |
| LeaseTable.LeaseState.MyLeasesNow | src/rhc/leases/state.rs:120-127 | exactly the stored unexpired leases this node holds |
| LeaseTable.LeaseState.CleanupExpired | src/rhc/leases/state.rs:147-161 | removes exactly the leases expired at `now` and returns them; the rest stay as they were |
| LeaseTable.LeaseState.CanAcquireLease | src/rhc/leases/state.rs:165-186 | a block scope always may; otherwise refused exactly when blocked, naming a most specific covering lease the request is not more specific than |
| LeaseManagement.RenewOutcomes | src/rhc/leases/manager.rs:98-120 | `renew_lease` reports an unknown id, a foreign holder and an expired lease in that order without change, and otherwise renews exactly that lease |
| LeaseManagement.ReleaseThenRenew | src/rhc/leases/manager.rs:123-135 | `release_lease` refuses exactly an unknown id or a foreign holder, without change; otherwise the lease is gone and a later renew of it is `NotFound` |
| LeaseManagement.NeedingRenewalIsMineExpiring | src/rhc/leases/manager.rs:163-172 | the leases needing renewal are exactly this node's unexpired leases expiring within the window |
| LeaseManagement.CleanupDelegations | src/rhc/leases/manager.rs:184-188 | `cleanup` drops exactly the approvals no longer valid and keeps the rest unchanged |
| LeaseManagement.AcquireOnEmptyTable | src/rhc/leases/manager.rs:209-224 | on an empty table a fresh file lease is the most specific lease for the file, only its holder's, and blocks further requests |
| LeaseManagement.LeaseManager.constructor | src/rhc/leases/manager.rs:62-69 | an empty lease state over the shared clock and no approvals |
| LeaseManagement.LeaseManager.AcquireLease | src/rhc/leases/manager.rs:72-95 | the clock ticks once; refused exactly when blocked at the new time, naming a most specific conflicting lease and changing nothing; otherwise the new lease, held by this node from the new time, is returned and added; a block scope is never refused |
| LeaseManagement.LeaseManager.RenewLease | src/rhc/leases/manager.rs:98-120 | the clock ticks once, and the answer and state are the `renew_lease` outcome at the new time |
| LeaseManagement.LeaseManager.ReleaseLease | src/rhc/leases/manager.rs:123-135 | the answer and state are the `release_lease` outcome |
| LeaseManagement.LeaseManager.AddDelegation | src/rhc/leases/manager.rs:138-160 | the clock ticks once and the approval for (group, pattern) is valid until `now + valid_for`, replacing any earlier one |
| LeaseManagement.LeaseManager.LeasesNeedingRenewal | src/rhc/leases/manager.rs:163-172 | the clock ticks once and the answer is the own leases expiring within the window |
| LeaseManagement.LeaseManager.Cleanup | src/rhc/leases/manager.rs:175-189 | the clock ticks once; expired leases and lapsed approvals are dropped |
| LeaseManagement.LeaseManager.CanWrite | src/rhc/leases/manager.rs:192-201 | true only if a most specific candidate is held by this node, and true whenever one exists and all are held by it |
| LeaseCrdt.GrantEffect | src/rhc/crdt/lease_state.rs:37-61 | a grant writes its entry exactly when the scope holds no entry or one set strictly earlier than `granted_at`, otherwise keeps what the scope had, and leaves other scopes alone |
| LeaseCrdt.GrantedValidity | src/rhc/crdt/lease_state.rs:76-102 | right after a grant that took effect, the check succeeds exactly up to and including the expiry and reports the holder, lease id and expiry |
| LeaseCrdt.ValidityIsDownwardClosed | src/rhc/crdt/lease_state.rs:76-102 | a check that succeeds at some time gives the same answer at every earlier time |
| LeaseCrdt.FenceEffect | src/rhc/crdt/lease_state.rs:64-73 | a fence on a missing scope changes nothing; on an entry it takes effect exactly when later than the entry's timestamp, and then marks it fenced and inactive at the fence time |
| LeaseCrdt.FenceSplitsTime | src/rhc/crdt/lease_state.rs:64-102 | after a fence at `f` took effect on a lease live at `f`, checks up to `f` succeed with the old lease and checks after `f` fail |
| LeaseCrdt.MergedEffect | src/rhc/crdt/lease_state.rs:134-141 | after a merge the receiver knows every scope of both replicas, each holding the register merge of both sides |
| LeaseCrdt.MergedAssociative | src/rhc/crdt/lease_state.rs:134-141 | merging is associative |
| LeaseCrdt.MergedIdempotent | src/rhc/crdt/lease_state.rs:134-141 | merging a replica into itself changes nothing |
| LeaseCrdt.MergedCommutative | src/rhc/crdt/lease_state.rs:134-141 | merging is commutative when no scope holds equal timestamps on the two sides |
| LeaseCrdt.MergedTieBrokenCommutative | src/rhc/crdt/lease_state.rs:134-141 | the table merge over the tie-broken register merge is commutative, ties included |
| LeaseCrdt.GrantAndCheckTest | src/rhc/crdt/lease_state.rs:154-174 | granted over [1000, 2000], the lease is valid for its holder at 1500 and invalid at 2500 |
| LeaseCrdt.FenceTest | src/rhc/crdt/lease_state.rs:176-198 | a fence at 1500 keeps the lease valid at 1400 and cuts it off at 1600 |
| LeaseCrdt.MergeTest | src/rhc/crdt/lease_state.rs:200-225 | after merging, the first replica sees both replicas' grants valid at 1500 |
| LeaseCrdt.LeaseStateCRDT.constructor | src/rhc/crdt/lease_state.rs:29-34 | no entries, owned by the given actor |
| LeaseCrdt.LeaseStateCRDT.GrantLease | src/rhc/crdt/lease_state.rs:37-61 | returns the lease id and the table becomes the grant outcome |
| LeaseCrdt.LeaseStateCRDT.FenceLease | src/rhc/crdt/lease_state.rs:64-73 | the table becomes the fence outcome |
| LeaseCrdt.LeaseStateCRDT.ActiveLeases | src/rhc/crdt/lease_state.rs:105-123 | lists exactly the scopes whose entry is active and expires after `now`, once each, with their lease info |
| LeaseCrdt.LeaseStateCRDT.Merge | src/rhc/crdt/lease_state.rs:134-141 | the table becomes the merge of both old tables |
| LeaseCrdt.LeaseStateCRDT.MergeFrom | src/rhc/crdt/lease_state.rs:134-141 | the same merge, with a copy of another replica's table |
| RhcCrypto.DefaultSignature | rhc/src/crypto.rs:17-21 | the default signature is an Ed25519 signature of 64 zero bytes |
| RhcCrypto.Ed25519Verify | rhc/src/crypto.rs:41-56 | verification succeeds exactly for a 64-byte Ed25519 signature the library accepts; every failure is a `Crypto` error |
| RhcCrypto.ShapeCheckedFirst | rhc/src/crypto.rs:41-56 | a signature of the wrong variant or length is refused with the same fixed error whatever the library would say |
| RhcCrypto.AddShareEffect | rhc/src/crypto.rs:102-112 | `add_share` refuses a non-BLS or undecodable share with a `Crypto` error and keeps the shares; otherwise it records the share under the node, replacing an earlier one |
| RhcCrypto.AggregateGuard | rhc/src/crypto.rs:114-138 | `aggregate` fails with `InsufficientShares{got, need}` exactly below the threshold; at or above it, it returns a BLS signature exactly when the library aggregates, and a `Crypto` error otherwise |
| RhcCrypto.ThreeSharesTest | rhc/tests/global_consensus.rs:180-222 | shares from distinct nodes reach the threshold only at the last one, and a repeated node does not count twice |
| RhcCrypto.ThresholdSignatureAggregator.constructor | rhc/src/crypto.rs:95-100 | the given threshold and no shares |
| RhcCrypto.ThresholdSignatureAggregator.AddShare | rhc/src/crypto.rs:102-112 | the answer and the shares are the `add_share` outcome |
| RhcCrypto.ThresholdSignatureAggregator.Aggregate | rhc/src/crypto.rs:118-138 | the answer is the `aggregate` outcome for the shares held |
| RhcLease.IsAncestorOf | rhc/src/lease.rs:26-36 | true exactly when the other domain's parent id is this domain's id: the loop checks one level and stops |
| RhcLease.GrandparentNotAncestor | rhc/src/lease.rs:26-36 | a grandparent is not recognised as an ancestor unless its id equals the parent's |
| RhcLease.TimeRemaining | rhc/src/lease.rs:63-70 | never negative, zero exactly once the lease is invalid, and otherwise the time left to the expiry |
| RhcLease.ValidUntilExpiry | rhc/src/lease.rs:51-61 | valid exactly before the physical part of the expiry, which keeps the start's logical part; valid at a time means valid at every physically earlier time |
| RhcLease.FreshNow | rhc/src/lease.rs:110 | `HybridClock::new().now()` is the reading of a clock at zero |
| RhcLease.ProofChain | rhc/src/lease.rs:140-161 | the proof's chain of leases starts with its own lease |
| RhcLease.SoundChainCons | rhc/src/lease.rs:140-161 | a chain led by a lease is sound exactly when that lease is valid, the next lease's domain is its parent, and the rest is sound |
| RhcLease.VerifyIffSoundChain | rhc/src/lease.rs:140-161 | `verify_lease` accepts exactly a proof whose whole parent chain is sound; an invalid own lease gives `LeaseExpired` for its domain; every refusal is `InvalidLeaseProof` or `LeaseExpired` for a lease of the chain |
| RhcLease.RequestEffect | rhc/src/lease.rs:102-138 | a request conflicts, naming the holder and changing nothing, exactly while the domain's active lease is valid; otherwise the new lease, held by this node from now with the parent proof, is stored and made active |
| RhcLease.SecondRequestConflicts | rhc/tests/formal_verification.rs:12-38 | a second request for the same domain before the first lease runs out conflicts and leaves the first lease active |
| RhcLease.RenewEffect | rhc/src/lease.rs:163-192 | renewal refuses an unknown id with `Other` and an invalid lease with `LeaseExpired` without change; otherwise a new lease with the same domain, holder and parent, starting now, is stored and made active |
| RhcLease.RevokeEffect | rhc/src/lease.rs:194-199 | revocation removes the lease and its domain's active entry, touches nothing else, changes nothing for an unknown id, and keeps the tables consistent |
| RhcLease.LeaseManager.constructor | rhc/src/lease.rs:94-100 | no leases and no active leases |
| RhcLease.LeaseManager.RequestLease | rhc/src/lease.rs:102-138 | the answer and tables are the request outcome at the two clock readings |
| RhcLease.LeaseManager.VerifyLease | rhc/src/lease.rs:140-161 | the answer is the verification outcome at the clock reading |
| RhcLease.LeaseManager.RenewLease | rhc/src/lease.rs:163-192 | the answer and tables are the renewal outcome at the clock reading |
| RhcLease.LeaseManager.RevokeLease | rhc/src/lease.rs:194-199 | always `Ok`, with the tables after revocation |
| RhcLease.LeaseManager.GetActiveLease | rhc/src/lease.rs:201-203 | the active lease of the domain, if any |
| RhcStorage.ApplyEffect | rhc/src/storage.rs:33-48 | a decoded write makes its key read back its value, a decoded delete makes it absent, an undecodable payload is a `Serialization` error that changes nothing, and other operation types change nothing |
| RhcStorage.UntouchedKeyReadBack | rhc/src/storage.rs:33-52 | a key no write touches reads back as before |
| RhcStorage.LastWriteReadBack | rhc/src/storage.rs:33-52 | the last write to a key is what `get` reads back |
| RhcStorage.CounterTest | rhc/tests/local_consensus.rs:176-204 | three writes of "1", "2", "3" to "counter" read back "3" |
| RhcStorage.InMemoryStorage.constructor | rhc/src/storage.rs:18-22 | no data |
| RhcStorage.InMemoryStorage.ApplyOperation | rhc/src/storage.rs:33-48 | the answer and data are the `apply_operation` outcome |
| RhcStorage.InMemoryStorage.Get | rhc/src/storage.rs:50-52 | never fails, and gives the stored value exactly for a stored key |
| RhcStorage.InMemoryStorage.Scan | rhc/src/storage.rs:54-60 | never fails, and lists exactly the entries whose key starts with the prefix, each key once |
| RhcConsensus.TryAggregateEffect | rhc/src/consensus.rs:143-184 | a no-op below the threshold or once the round is committed; otherwise, with the proposal stored and the signature aggregated, one commit of the proposal's value is stored and sent and the round is raised to it; a failure changes nothing |
| RhcConsensus.SignEffect | rhc/src/consensus.rs:91-124 | `sign_proposal` without a stored proposal is `Proposal not found`; otherwise this node's share is recorded and sent first; commits are kept and the round never goes down |
| RhcConsensus.ProposeEffect | rhc/src/consensus.rs:49-73 | `propose` raises the round by one, stores this node's proposal under it, sends the proposal and then its own share, and keeps every commit |
| RhcConsensus.HandleProposalEffect | rhc/src/consensus.rs:75-89 | a proposal for a round not above the current one is ignored; a later one is stored and signed by this node; commits are kept and the round never goes down |
| RhcConsensus.HandleShareEffect | rhc/src/consensus.rs:126-141 | a share for a round without a proposal is ignored; a refused share only creates the round's aggregator; an accepted one is recorded under its node |
| RhcConsensus.HandleCommitEffect | rhc/src/consensus.rs:186-200 | any commit given is stored, replacing the round's earlier one, other rounds keep theirs, and the round becomes the larger of the two |
| RhcConsensus.FirstProposal | rhc/src/consensus.rs:49-124 | a fresh node's first proposal, below a threshold of 2 or more, holds only its own share and commits nothing |
| RhcConsensus.TwoSharesCommit | rhc/src/consensus.rs:126-184 | two more shares from other nodes reach threshold 3 and commit the stored proposal's value, whatever value those nodes signed |
| RhcConsensus.RoundKeyedSharesConflict | rhc/tests/formal_verification.rs:149-215 | with four nodes at threshold 3 and two proposals for round 1, the same three shares make two nodes commit different values for round 1 |
| RhcConsensus.QuorumsShareHonestNode | rhc/src/consensus.rs:33 | with the threshold at least ⌊2n/3⌋+1 and fewer than n/3 faulty nodes, two threshold-sized signer sets share an honest node |
| RhcConsensus.ValueKeyedCommitsAgree | rhc/src/consensus.rs:143-184 | with shares keyed by round and value, two commits for the same round agree |
| RhcConsensus.CorrectedCommitJustified | rhc/src/consensus.rs:143-184 | a commit under the corrected rule is backed by a threshold of shares for its own round and value, and earlier commits are kept |
| RhcConsensus.BftConsensus.constructor | rhc/src/consensus.rs:27-47 | requires the threshold to be at least ⌊2n/3⌋+1, and starts at round 0 with nothing stored |
| RhcConsensus.BftConsensus.Propose | rhc/src/consensus.rs:49-73 | the answer and state are the `propose` outcome |
| RhcConsensus.BftConsensus.HandleProposal | rhc/src/consensus.rs:75-89 | the answer and state are the `handle_proposal` outcome |
| RhcConsensus.BftConsensus.SignProposal | rhc/src/consensus.rs:91-124 | the answer and state are the `sign_proposal` outcome |
| RhcConsensus.BftConsensus.HandleShare | rhc/src/consensus.rs:126-141 | the answer and state are the `handle_share` outcome |
| RhcConsensus.BftConsensus.TryAggregate | rhc/src/consensus.rs:143-184 | the answer and state are the `try_aggregate` outcome |
| RhcConsensus.BftConsensus.HandleCommit | rhc/src/consensus.rs:186-200 | always `Ok`, with the commit stored |
| RhcConsensus.BftConsensus.GetCommittedValue | rhc/src/consensus.rs:202-204 | the committed value of the round, if any |
| Fuse.CreationGid | src/fuse.rs:969-975 | a set-group-id parent hands its group to what is created in it; otherwise the caller's group is used |
| Fuse.ClearSuidSgid | src/fuse.rs:977-983 | set-user-id is always cleared, set-group-id only when group-execute is set, and every other bit is kept |
| Fuse.ClearedAttrs | src/fuse.rs:977-983 | of the attributes only the mode changes |
| Fuse.ClearSuidSgidIdempotent | src/fuse.rs:977-983 | clearing twice is the same as clearing once |
| Fuse.CheckAccess | src/fuse.rs:994-996 | an `F_OK` request is always granted |
| Fuse.CheckAccessPosix | src/fuse.rs:1009-1017 | for a caller other than root asking for read, write or execute, access is granted exactly when the one class the caller falls in (owner, else group, else other) has every requested bit, as section 4.5 of POSIX.1-2017 Base Definitions specifies |
| Fuse.RootAccess | src/fuse.rs:1000-1007 | root may always read and write, and may execute exactly when some execute bit is set |
| Fuse.OwnerDenied | src/fuse.rs:1009-1011 | an owner without a permission bit is refused even when group and other bits grant it |
| Fuse.CheckFileHandleRead | src/fuse.rs:1020-1022 | true exactly when bit 63 of the handle is set |
| Fuse.CheckFileHandleWrite | src/fuse.rs:1023-1025 | true exactly when bit 62 of the handle is set |
| Fuse.HandleBits | src/fuse.rs:1020-1025 | the read and write bits are independent of each other and of the handle number in the low 62 bits |
| Fuse.Blocks | src/fuse.rs:1069 | the block count is the size in 512-byte blocks, rounded up |
| Fuse.AttrsAfterWrite | src/fuse.rs:919-925 | after a write the size is the larger of the old size and the end of the write, and only the setuid and setgid bits of the mode are cleared |
| FuseFs.PlaceBlock | src/fuse_fs.rs:124-128 | a block's group is its id modulo 3, always below 3 |
| FuseFs.Zeros | src/fuse_fs.rs:361 | a missing block reads as 4096 zero bytes |
| FuseFs.StoredAfterStore | src/fuse_fs.rs:146-215 | `read_block` finds a block in the group `write_block` placed it in |
| FuseFs.StoreBlockByte | src/fuse_fs.rs:146-215 | after storing a block, its bytes are the new ones and every other block reads as before |
| FuseFs.StoreBlockOthers | src/fuse_fs.rs:146-215 | storing one block leaves what `read_block` finds for every other block |
| FuseFs.StepOffsets | src/fuse_fs.rs:390-411 | at each step of `write`'s loop, the block and data offsets are those of the part of the block the range covers, and the next step starts where this one ended |
| FuseFs.BlockRange | src/fuse_fs.rs:385-386 | the blocks visited run from the one holding `offset` to the one holding the last byte of the range |
| FuseFs.Splice | src/fuse_fs.rs:395-406 | the spliced block holds the data on the covered part and, elsewhere, the bytes the block held before, or zeros when it was missing |
| FuseFs.WalkLeavesLaterBlocks | src/fuse_fs.rs:390-418 | the loop, up to block `index`, has not stored that block or any later block of the file |
| FuseFs.PlacementsEffect | src/fuse_fs.rs:181-184 | the loop records a placement for exactly the blocks it visits, each where `place_block` puts it, and keeps every other placement |
| FuseFs.WrittenByte | src/fuse_fs.rs:390-418 | the loop over blocks `start .. index` writes exactly the covered bytes of those blocks |
| FuseFs.WriteEffect | src/fuse_fs.rs:381-418 | after `write`, each byte the range covers holds its data byte and every other byte is as before, for data of any length |
| FuseFs.ReadBytesAt | src/fuse_fs.rs:343-379 | byte `i` of a read at `offset` is the byte of the matching block at position `(offset + i) % 4096` |
| FuseFs.CollectedAt | src/fuse_fs.rs:354-363 | the collected blocks put byte `j % 4096` of block `start + j / 4096` at position `j` |
| FuseFs.Trim | src/fuse_fs.rs:365-375 | trimming the collected blocks from `offset % 4096` gives exactly the bytes of the range |
| FuseFs.WriteThenRead | src/fuse_fs.rs:343-431 | reading back the range just written returns the written bytes |
| FuseFs.WriteIsolation | src/fuse_fs.rs:391 | a write that ends within 1000 blocks leaves what `read` finds in the first 1000 blocks of every other inode |
| FuseFs.LargeWriteReachesNextInode | src/fuse_fs.rs:391 | block ids `ino * 1000 + index` collide: a write at byte 4 096 000 of an inode changes the first byte of the next inode |
| FuseFs.LisFs.constructor | src/fuse_fs.rs:78-121 | only root inode 1, a directory; the counter at 2; no placements; three empty groups |
| FuseFs.LisFs.NextIno | src/fuse_fs.rs:218-223 | returns the counter and moves it on by one; the number is neither root nor in use |
| FuseFs.LisFs.Lookup | src/fuse_fs.rs:290-341 | under the root, any name but "." and ".." creates a new empty regular file under a fresh inode, even when the name exists; anything else is `ENOENT` and changes nothing |
| FuseFs.LisFs.ReadBlock | src/fuse_fs.rs:146-171 | the block as stored in its recorded group, else in the group `place_block` gives |
| FuseFs.LisFs.WriteBlock | src/fuse_fs.rs:174-215 | records the placement and stores the block in that group |
| FuseFs.LisFs.WriteStep | src/fuse_fs.rs:391-417 | one pass of the loop stores the spliced block, records its placement, and moves `written` to the next block's start |
| FuseFs.LisFs.WriteBlocks | src/fuse_fs.rs:390-418 | the loop stores every touched block spliced, and records their placements |
| FuseFs.LisFs.Write | src/fuse_fs.rs:381-431 | replies with the data's length; the blocks become the written ones; a known file's size becomes the larger of its old size and the end of the write |
| FuseFs.LisFs.CollectBlocks | src/fuse_fs.rs:354-363 | the loop collects blocks `start .. end` end to end, missing ones as zeros |
| FuseFs.LisFs.Read | src/fuse_fs.rs:343-379 | `ENOENT` for an unknown inode, otherwise the bytes of the range |
| ObjectsFile.Spliced | src/objects/file.rs:223-232 | the new chunk is as long as the longer of the old chunk and the end of the data |
| ObjectsFile.WriteChunkEffect | src/objects/file.rs:205-238 | `Chunks::write` refuses an offset past the chunk's end, a missing chunk counting as empty; otherwise only that chunk changes: its bytes before the offset stay, the data follows, the old bytes past the end of the data stay, and its length is the larger of the old length and the end of the data |
| ObjectsFile.SplicedEffect | src/objects/file.rs:223-232 | laying data over bytes at an offset keeps the bytes before it, puts the data there, and keeps the old bytes past the end of the data |
| ObjectsFile.ChunkIndexIsDivision | src/objects/file.rs:76-88 | the chunk of a byte and its place in that chunk, counted out by whole chunks, are the quotient and remainder by the chunk size that `read` and `write` compute |
| ObjectsFile.ContentsLength | src/objects/file.rs:47-63 | in a well-formed file every chunk but the last is full, and all of them make up the file's size |
| ObjectsFile.SizeIsLength | src/objects/file.rs:47-63 | on a well-formed file `size` is the length of its contents |
| ObjectsFile.GatheredExtends | src/objects/file.rs:83-86 | gathering chunks `lo .. hi` extends the contents up to `lo` to the contents up to `hi` |
| ObjectsFile.ReadSpan | src/objects/file.rs:76-80 | for a range inside the file, the chunks visited run from the first byte's chunk to the last byte's, which needs no clamping |
| ObjectsFile.ReadUnfold | src/objects/file.rs:82-92 | once its checks pass, `read` slices the gathered chunks from `offset % chunk_size`, and fails when the slice runs past them |
| ObjectsFile.ReadInside | src/objects/file.rs:64-93 | on a well-formed file, `read` of a range inside the file returns exactly that range of the contents |
| ObjectsFile.ReadOutside | src/objects/file.rs:64-93 | a range that runs past the end is an error, and one starting past the end is `InvalidOffset` |
| ObjectsFile.ReadAllContents | src/objects/file.rs:94-98 | `read_all` on a well-formed file gives its contents |
| ObjectsFile.GatheredMissing | src/objects/file.rs:83-86 | `read` stops at the first missing chunk and reports it |
| ObjectsFile.StepsStopAtError | src/objects/file.rs:123-142 | once a pass fails, the later passes do not run |
| ObjectsFile.WriteOutcomeLoop | src/objects/file.rs:116-143 | once its checks pass, `write` is the loop's outcome, with the data's length on success |
| ObjectsFile.WriteResult | src/objects/file.rs:100-121 | empty data writes nothing and returns 0; an offset past the size, wrong attributes, or a start chunk past the handle's count is refused without change |
| ObjectsFile.StepsCount | src/objects/file.rs:126-134 | passes that succeed raise the handle's chunk count to cover them and the metadata's count by the same amount |
| ObjectsFile.WriteCount | src/objects/file.rs:100-144 | after a successful write both counts have grown alike to cover the chunk of the last byte written |
| ObjectsFile.AsWrittenCutMisplacesData | src/objects/file.rs:124-141 | the source's cut of the data: writing 4 bytes at offset 2 of a 2-byte file with 4-byte chunks leaves 6 bytes in chunk 0 and an empty chunk 1, and a 3-byte write at offset 3 slices past the data and panics |
| ObjectsFile.IntendedStep | src/objects/file.rs:123-142 | one pass with the intended cut keeps the file well formed and grows it to where the data reaches the chunk |
| ObjectsFile.IntendedSteps | src/objects/file.rs:123-142 | all intended passes succeed and keep the file well formed |
| ObjectsFile.IntendedStepContents | src/objects/file.rs:123-141 | one intended pass at chunk `i` lays over the file the part of the data that falls in that chunk, at its place in the chunk |
| ObjectsFile.IntendedStepsContents | src/objects/file.rs:123-142 | the intended passes up to chunk `stop` leave the file's old contents with the data laid over from `offset` as far as chunk `stop` reaches |
| ObjectsFile.IntendedWriteContents | src/objects/file.rs:100-144 | the intended write leaves the old contents with the whole data laid over from `offset` |
| ObjectsFile.IntendedWrite | src/objects/file.rs:100-144 | the intended write on a well-formed file returns the data's length and leaves a well-formed file, covering the last chunk written, whose size is the larger of the old size and the end of the write; the bytes before `offset` stay, the data is at `offset`, the old bytes past the end of the write stay, and `read` of the written range gives the data back |
| ObjectsFile.Chunks.constructor | src/objects/file.rs:185-192 | no chunks, counted as size 0 |
| ObjectsFile.Chunks.Read | src/objects/file.rs:194-201 | the chunk's bytes, or `MissingChunk` when there is none |
| ObjectsFile.Chunks.Write | src/objects/file.rs:205-238 | the answer and the new chunk are the `Chunks::write` outcome, and the count is unchanged |
| ObjectsFile.LisFile.constructor | src/objects/file.rs:17-46 | no chunks, with the default chunk size |
| ObjectsFile.LisFile.Size | src/objects/file.rs:47-63 | `size` on the chunks and attributes held |
| ObjectsFile.LisFile.Read | src/objects/file.rs:64-93 | the answer is the `read` outcome |
| ObjectsFile.LisFile.GatherChunks | src/objects/file.rs:83-86 | the loop gathers chunks `start .. stop` end to end, or reports the first missing one |
| ObjectsFile.LisFile.Write | src/objects/file.rs:100-144 | the answer and state are the intended `write` outcome, whose contents `ObjectsFile.IntendedWrite` states |
| ObjectsFile.LisFile.WriteChunks | src/objects/file.rs:123-142 | the loop's passes, stopping at the first error |
| ObjectsFile.LisFile.WriteStep | src/objects/file.rs:124-141 | one pass of the loop at chunk `i` |
| LisObject.NewObject | src/lis-proto-1/object.rs:28-61 | path, inode and kind as given, no open handles and no xattrs; a file takes the size given (else 0), the mode given (else 0o744) and one link; a directory is 512 bytes whatever size is given, takes the mode given (else 0o755) and two links; uid and gid as given, else the process's |
| LisObject.DefaultFileAccess | src/lis-proto-1/object.rs:28-41 | a file with the default mode can be read by anyone, and written or executed only by its owner |
| LisObject.DefaultDirAccess | src/lis-proto-1/object.rs:42-55 | a directory with the default mode can be listed and searched by anyone and written only by its owner |
| LisObject.DirectorySizeIgnored | src/lis-proto-1/object.rs:42-55 | a directory's size does not depend on the size argument |
| LisManifest.Manifest.constructor | src/lis-proto-1/manifest.rs:23-44 | exactly one object, the root directory under inode 1 and path "/", with two links; `inodes` maps "/" to 1; the inode counter is 2 and the handle counter 1; the root doc id is the argument |
| LisUtil.NamespaceIdToBytes | src/lis-proto-1/util.rs:10-13 | an id converts to exactly 32 bytes |
| LisUtil.BytesToNamespaceId | src/lis-proto-1/util.rs:16-19 | succeeds exactly on 32 bytes and keeps them, and otherwise reports the wrong length |
| LisUtil.NamespaceIdRoundTrip | src/lis-proto-1/util.rs:81-88 | an id converted to bytes and back is the same id |
| LisUtil.BytesRoundTrip | src/lis-proto-1/util.rs:10-19 | bytes accepted as an id convert back to themselves |
| LisUtil.AddLeadingSlash | src/lis-proto-1/util.rs:21-29 | the result always starts at the root, and is one component longer exactly when the path was relative |
| LisUtil.AddLeadingSlashEffect | src/lis-proto-1/util.rs:21-29 | an absolute path is left alone, a relative one keeps its components after the root, and applying it twice is applying it once |
| LisUtil.TrimEndNul | src/lis-proto-1/util.rs:54 | the result is a prefix of the string, does not end with NUL, and only NULs were dropped |
| LisUtil.KeyToString | src/lis-proto-1/util.rs:52-55 | succeeds exactly on valid UTF-8, and an error otherwise |
| LisUtil.KeyRoundTrip | src/lis-proto-1/util.rs:52-55 | the UTF-8 encoding of a string not ending in NUL, padded with NUL bytes, reads back as that string |
| DocTypes.FromName | src/doc.rs:95-103 | a known kind stands for exactly its own name, and `Unknown` for any string no kind is named by |
| DocTypes.DocTypeFrom | src/doc.rs:93-105 | a known kind is read only from the UTF-8 encoding of its name |
| DocTypes.DocTypeRoundTrip | src/doc.rs:96-101 | each of the six kinds is read back from the encoding of its own name, so "children" gives `ChildrenDoc` |
| DocTypes.DocTypeInjective | src/doc.rs:96-101 | two byte strings that name the same known kind are equal, so the six names give six distinct kinds |
| AthensNetwork.Latency | src/athens/network.rs:54-78 | 0 from a location to itself; otherwise a table entry or one of the two defaults |
| AthensNetwork.UnlistedLatency | src/athens/network.rs:69-77 | a pair listed in neither direction gets 5 when both names start with "london" and 250 otherwise |
| AthensNetwork.LatencySymmetric | src/athens/network.rs:59-67 | on a symmetric table the latency does not depend on direction |
| AthensNetwork.DefaultTableSymmetric | src/athens/network.rs:31-51 | the table `new` builds is symmetric |
| AthensNetwork.DefaultLatencies | src/athens/network.rs:35-44 | perth and london are 250 apart, london-main and london-mini 2, london-main and london-secondary 5, london-mini and london-secondary 3, both ways |
| AthensNetwork.DefaultLatencyValues | src/athens/network.rs:31-78 | every latency is one of 0, 2, 3, 5 and 250 |
| AthensNetwork.LatencySimulator.constructor | src/athens/network.rs:31-51 | the ten entries of the table |
| AthensNetwork.LatencySimulator.GetLatency | src/athens/network.rs:54-78 | the lookup on the table held |
| Utf8.DecodeEncode | src/lis-proto-1/util.rs:53 | every string round-trips through its UTF-8 encoding |
| Utf8.EncodeDecode | src/lis-proto-1/util.rs:53 | what decoding accepts is exactly the encoding of its result |
| Utf8.DecodeInjective | src/doc.rs:95 | two byte strings that decode to the same string are equal |
| Paths.Parent | src/rhc/leases/lease.rs:51 | `parent()` is none for the empty path and the root, and otherwise the path without its last component |
| BlockSplit.SplitCount | examples/variable_block_storage.rs:371 | cutting data into blocks of `bs` bytes gives `(len + bs - 1) / bs` blocks |
| BlockSplit.SplitBlock | examples/variable_block_storage.rs:377-380 | block `i` starts inside the data and holds exactly the bytes from `i * bs` up to `min((i + 1) * bs, len)` |
| BlockSplit.BlockAt | examples/variable_block_storage.rs:371-380 | the block count and, for block `i`, its bounds, which lie inside the data, and its contents |
| BlockSplit.FlattenSplit | examples/variable_block_storage.rs:451-462 | the blocks laid end to end in order give back the data that was cut |
| BlockSplit.FlattenPrefix | examples/variable_block_storage.rs:377-380 | the first `k` blocks laid end to end are the first `min(k * bs, len)` bytes |
| VariableBlockStorage.SizeBytes | examples/variable_block_storage.rs:16-23 | every block size is at least 512 bytes |
| VariableBlockStorage.SizeBytesInjective | examples/variable_block_storage.rs:16-23 | the five sizes have five different byte lengths |
| VariableBlockStorage.FromDataPatternCases | examples/variable_block_storage.rs:26-49 | a listed extension decides the size whatever the data; otherwise below 8 KiB the length alone decides, from 8 KiB the result is 4 KiB or 16 KiB, and 16 KiB only for unsparse data over 1 MiB |
| VariableBlockStorage.FromDataPatternMonotone | examples/variable_block_storage.rs:36-46 | for one extension and one sparseness verdict, more data never gets a smaller block |
| VariableBlockStorage.Extension | examples/variable_block_storage.rs:352 | the result holds no dot, is a suffix of the name, and is preceded by a dot whenever it is shorter than the name |
| VariableBlockStorage.ExtensionAfterLastDot | examples/variable_block_storage.rs:352 | the extension of `stem.ext` is `ext` when `ext` holds no dot |
| VariableBlockStorage.Nonzero | examples/variable_block_storage.rs:124-130 | the kept bytes are no more than the input and none of them is zero |
| VariableBlockStorage.ZeroMap | examples/variable_block_storage.rs:122-127 | the bitmap is as long as the data and bit `i` is set exactly when byte `i` is zero |
| VariableBlockStorage.Expand | examples/variable_block_storage.rs:148-159 | the loop writes one byte per bitmap position and uses at most the payload it was given |
| VariableBlockStorage.Step | examples/variable_block_storage.rs:151-158 | one turn writes one more byte and stays within the payload |
| VariableBlockStorage.ExpandZeroMap | examples/variable_block_storage.rs:141-163 | over the zero bitmap of `e`, with a payload starting with the nonzero bytes of `e`, the loop rebuilds `e` using exactly those bytes |
| VariableBlockStorage.NullRoundTrip | examples/variable_block_storage.rs:115-163 | compressing data and decompressing it with its original length gives back the data |
| VariableBlockStorage.NullCompressShape | examples/variable_block_storage.rs:115-138 | data without a zero byte is kept without a bitmap; a bitmap is used exactly when the nonzero bytes are fewer than three quarters of the length, and then the payload is the nonzero bytes and the bitmap marks the zeros |
| VariableBlockStorage.DecompressedLength | examples/variable_block_storage.rs:144-161 | with a bitmap the result has the original length |
| VariableBlockStorage.NullCompress | examples/variable_block_storage.rs:115-138 | the loop computes the compressed form of the data |
| VariableBlockStorage.NullDecompress | examples/variable_block_storage.rs:141-163 | the loop computes the decompressed form |
| VariableBlockStorage.BlockRoundTrip | examples/variable_block_storage.rs:96-111 | a compressed block decompresses to its data, holds no more bytes than that data, and records its length |
| VariableBlockStorage.NewCompressedBlock | examples/variable_block_storage.rs:96-107 | the compressed block of the data |
| VariableBlockStorage.Decompress | examples/variable_block_storage.rs:109-111 | the decompressed bytes of the block |
| VariableBlockStorage.SizeBits | examples/variable_block_storage.rs:201-207 | every size is coded in three bits |
| VariableBlockStorage.SizeBitsRoundTrip | examples/variable_block_storage.rs:201-207 | decoding the three bits of a size gives that size |
| VariableBlockStorage.LastChangeAtOrBefore | examples/variable_block_storage.rs:222-226 | the result is 0 or a recorded change position at or before the position |
| VariableBlockStorage.LastChangeOfThirds | examples/variable_block_storage.rs:220-226 | when changes are recorded every three bits, the change in force at bit `p` starts at `p` rounded down to a multiple of three |
| VariableBlockStorage.SizeAtChange | examples/variable_block_storage.rs:220-241 | every bit inside the k-th change reports the size the k-th change encoded |
| VariableBlockStorage.LastEncodedWins | examples/variable_block_storage.rs:200-213 | encoding a size keeps the tracker well formed, and the size read at the last bit is the size just encoded |
| VariableBlockStorage.TrackerBitsPerChange | examples/variable_block_storage.rs:209-211 | a well-formed tracker has three bits per change and every change's three bits lie inside it |
| VariableBlockStorage.BlockSizeTracker.GetBlockSizeAt | examples/variable_block_storage.rs:220-241 | the size in force at the position |
| VariableBlockStorage.BlockSizeTracker.constructor | examples/variable_block_storage.rs:191-198 | one change, the initial size at bit 0, so the current size is the initial size |
| VariableBlockStorage.BlockSizeTracker.EncodeBlockSize | examples/variable_block_storage.rs:200-213 | the size's three bits are appended, their start is recorded and returned, and the current size is the size encoded |
| VariableBlockStorage.BlockSizeTracker.ChangeBlockSize | examples/variable_block_storage.rs:215-218 | as encoding, with the new size current |
| VariableBlockStorage.PlaceBlock | examples/variable_block_storage.rs:339-346 | the group is one of the three |
| VariableBlockStorage.PlacementBySize | examples/variable_block_storage.rs:339-346 | blocks of up to 1 KiB go to the SSD group, of 16 KiB or more to the cloud, and 4 KiB blocks to the SSD or HDD group by the parity of the file hash |
| VariableBlockStorage.HashOfParts | examples/variable_block_storage.rs:475-477 | the hash of a name is the sum of the hashes of its parts, so it does not depend on their order |
| VariableBlockStorage.BlockIds | examples/variable_block_storage.rs:382-386 | one id per block |
| VariableBlockStorage.Put | examples/variable_block_storage.rs:387-390 | storing a block keeps three groups |
| VariableBlockStorage.Stored | examples/variable_block_storage.rs:376-400 | storing blocks in turn keeps three groups |
| VariableBlockStorage.StoredSnoc | examples/variable_block_storage.rs:376-400 | storing one more block is storing the earlier ones and then that one, compressed |
| VariableBlockStorage.StoredHolds | examples/variable_block_storage.rs:387-390 | a stored block that no later block overwrites reads back as its own data |
| VariableBlockStorage.StoredLeavesOthers | examples/variable_block_storage.rs:387-390 | storing blocks does not change what any other id reads |
| VariableBlockStorage.CollectStored | examples/variable_block_storage.rs:451-462 | reading the first `k` stored ids back collects the first `k` blocks |
| VariableBlockStorage.CollectErrPrefix | examples/variable_block_storage.rs:459-461 | once a block is missing, the read keeps that first failure |
| VariableBlockStorage.CollectAlike | examples/variable_block_storage.rs:451-462 | two stores that answer alike for every listed id read alike |
| VariableBlockStorage.CollectFails | examples/variable_block_storage.rs:451-462 | the read fails exactly when some listed block is missing |
| VariableBlockStorage.WriteThenRead | examples/variable_block_storage.rs:348-473 | a file written and then read gives back its data |
| VariableBlockStorage.WriteKeepsOtherFiles | examples/variable_block_storage.rs:387-390 | writing a file whose ids no other file uses leaves what the other file reads |
| VariableBlockStorage.SameHashServesLaterData | examples/variable_block_storage.rs:369-390 | after `a` and then `b` are written, two names that hash alike with data of one length at one size, reading `a` returns `b`'s data |
| VariableBlockStorage.SwappedStemsCollide | examples/variable_block_storage.rs:475-477 | swapping two parts of a stem keeps the hash and the extension, so "ab.txt" and "ba.txt" share block ids |
| VariableBlockStorage.VariableBlockStorage.constructor | examples/variable_block_storage.rs:321-337 | three empty groups, no files, a tracker started at 4 KiB, all counters zero |
| VariableBlockStorage.VariableBlockStorage.Write | examples/variable_block_storage.rs:348-433 | the size follows from the extension and the data; the tracker records it when it differs from the last; the blocks are stored compressed on their groups and the file's metadata lists their ids; the write count goes up by one |
| VariableBlockStorage.VariableBlockStorage.WriteSized | examples/variable_block_storage.rs:356-433 | as `Write`, once the size is chosen |
| VariableBlockStorage.VariableBlockStorage.RecordSize | examples/variable_block_storage.rs:356-364 | the tracker records a changed size and counts the change, and nothing else changes |
| VariableBlockStorage.VariableBlockStorage.WriteBlocks | examples/variable_block_storage.rs:371-400 | block `i` holds its slice of the data and is stored compressed under `(hash, i, size)` on its group; the returned ids are the file's ids |
| VariableBlockStorage.VariableBlockStorage.Read | examples/variable_block_storage.rs:435-473 | "File not found" for a name never written, else the listed blocks read back and concatenated, failing at the first missing one; only a successful read is counted |
| VariableBlockTests.TestConsensusGroup.constructor | tests/variable_block_storage_tests.rs:118-124 | an empty block store |
| VariableBlockTests.TestConsensusGroup.WriteBlock | tests/variable_block_storage_tests.rs:126-138 | the block is stored compressed under its id, replacing any earlier one, and returned |
| VariableBlockTests.TestConsensusGroup.ReadBlock | tests/variable_block_storage_tests.rs:140-143 | the decompressed block when one is stored under the id, and nothing otherwise |
| VariableBlockTests.TierOf | tests/variable_block_storage_tests.rs:383-389 | the tier is one of the three |
| VariableBlockTests.TierOfAgreesExceptStandard | tests/variable_block_storage_tests.rs:383-389 | the test's placement agrees with the storage's `place_block` except for 4 KiB blocks, where they agree exactly when the file hash is odd |
| VariableBlockTests.RetrieveTier | tests/variable_block_storage_tests.rs:540-544 | the tier is one of the three |
| VariableBlockTests.RetrieveSizeRange | tests/variable_block_storage_tests.rs:505-513 | the test never picks 64 KiB blocks, and picks blocks of at most 1 KiB exactly for content under 16 KiB |
| VariableBlockTests.StoreAndRetrieve | tests/variable_block_storage_tests.rs:468-599 | the retrieved content is the stored content, and the block count is `(len + bs - 1) / bs` |
| VariableBlockTests.BlockSizesConsistent | tests/variable_block_storage_tests.rs:208-237 | 8 KiB of 0x42 stored under four ids reads back unchanged under each, and the group holds four blocks |
| VariableBlockTests.ConcurrentWrites | tests/variable_block_storage_tests.rs:323-372 | ten writes all succeed and the group holds ten blocks |
| VariableBlockTests.PlacementCounts | tests/variable_block_storage_tests.rs:375-424 | the SSD group ends with two blocks, the HDD group with one and the cloud group with two |
| VariableBlockTests.FiveChanges | tests/variable_block_storage_tests.rs:264-320 | five changes in fifteen bits, three per change, the last size current |
| VariableBlockTests.Zeros | tests/variable_block_storage_tests.rs:433 | `n` zero bytes |
| VariableBlockTests.ZeroBufferCompresses | tests/variable_block_storage_tests.rs:432-436 | two or more zeros compress to an empty payload and an all-ones bitmap; a single zero is kept as it is |
| VariableBlockTests.DenseBufferKept | tests/variable_block_storage_tests.rs:438-442 | data with no zero byte is stored unchanged, without a bitmap |
| VariableBlockTests.SingleByteCompresses | tests/variable_block_storage_tests.rs:451-456 | one nonzero byte among at least three zeros compresses to a one-byte payload and decompresses back |
| StoreRip.SizeBytes | examples/store_rip_manifesto.rs:14-27 | every block size is at least 512 bytes |
| StoreRip.RankOrdersLength | examples/store_rip_manifesto.rs:15-22 | the six sizes listed in order are listed by length |
| StoreRip.OptimalBands | examples/store_rip_manifesto.rs:29-38 | a size is chosen exactly for the file sizes from its own band's lower bound up to just below the next band's, and 1 MiB for everything past 10 MiB |
| StoreRip.Succ | examples/store_rip_manifesto.rs:15-22 | the next larger size, one rank up |
| StoreRip.OptimalMonotone | examples/store_rip_manifesto.rs:29-38 | a larger file never gets a smaller block size |
| StoreRip.NewBlock | examples/store_rip_manifesto.rs:55-65 | the block keeps its bytes unchanged and records their length |
| StoreRip.WriteThenLookup | examples/store_rip_manifesto.rs:92-109 | a stored block reads back as its bytes, and every other id reads as before |
| StoreRip.TotalWithout | examples/store_rip_manifesto.rs:115-120 | the stored byte count does not depend on the order the blocks are summed in |
| StoreRip.TotalAfterWrite | examples/store_rip_manifesto.rs:92-120 | storing a block adds its length to the group's byte count, less that of the block it replaces |
| StoreRip.ConsensusGroup.constructor | examples/store_rip_manifesto.rs:83-90 | an empty block map |
| StoreRip.ConsensusGroup.WriteBlock | examples/store_rip_manifesto.rs:92-104 | the block is stored under its id, replacing any earlier one, and returned |
| StoreRip.ConsensusGroup.ReadBlock | examples/store_rip_manifesto.rs:106-109 | the stored bytes under the id, if any |
| StoreRip.CgIndex | examples/store_rip_manifesto.rs:185-191 | blocks go to one of the first three tiers, never the cloud |
| StoreRip.CgIndexMonotone | examples/store_rip_manifesto.rs:185-191 | a later block never sits on a faster tier; only the first ten are on NVMe and only from the hundredth on HDD |
| StoreRip.GroupsBytesAfterWrite | examples/store_rip_manifesto.rs:193-197 | storing a block under a new id adds its length to the bytes all groups hold |
| StoreRip.EmptyGroupsBytes | examples/store_rip_manifesto.rs:220-229 | groups that hold nothing hold no bytes |
| StoreRip.StoreStep | examples/store_rip_manifesto.rs:173-212 | one turn stores block `i` on its tier under its own id, lists it, and adds its length to the stored total |
| StoreRip.StoreMovie | examples/store_rip_manifesto.rs:156-212 | block `i` of the file, at 1 MiB per block, is held under its id on its tier and listed in order with that tier; every byte is stored once, the stored total is the file length, and the cloud tier stays empty |
| StoreRip.RetrievedHeld | examples/store_rip_manifesto.rs:240-256 | entries whose blocks are all held read back as those blocks laid end to end |
| StoreRip.RetrievedFails | examples/store_rip_manifesto.rs:244-255 | playback fails exactly when some listed block is missing from its group |
| StoreRip.RetrievedNoneExtends | examples/store_rip_manifesto.rs:251-254 | once playback fails on a prefix it fails on every longer list |
| StoreRip.Playback | examples/store_rip_manifesto.rs:237-256 | the loop reads back the first `min(13, stored)` entries |
| StoreRip.Manifesto | examples/store_rip_manifesto.rs:156-269 | playback returns the first thirteen MiB of the file, or all of it when shorter, so the integrity check passes |
| StoreRip.CoverLength | examples/store_rip_manifesto.rs:157 | `blocks_needed` blocks cover the file |
| O1Storage.PlaceBlock | examples/o1_scalable_storage.rs:105-108 | the group is one of the three |
| O1Storage.PlacementCycles | examples/o1_scalable_storage.rs:105-108 | ids three apart share a group and consecutive ids never do |
| O1Storage.FileIds | examples/o1_scalable_storage.rs:125-126 | one id per block |
| O1Storage.FileIdsDistinct | examples/o1_scalable_storage.rs:126 | a file's block ids are distinct |
| O1Storage.FileIdsDisjoint | examples/o1_scalable_storage.rs:126 | files with different hashes and at most 1000 blocks each share no block id |
| O1Storage.IdsOverflowIntoNextFile | examples/o1_scalable_storage.rs:126 | block `1000 + i` of a file has the id of block `i` of the file whose hash is one larger |
| O1Storage.Put | examples/o1_scalable_storage.rs:44-55 | storing a block keeps three groups |
| O1Storage.Stored | examples/o1_scalable_storage.rs:125-152 | storing blocks in turn keeps three groups |
| O1Storage.StoredSnoc | examples/o1_scalable_storage.rs:125-152 | storing one more block is storing the earlier ones and then that one |
| O1Storage.PlacedAgrees | examples/o1_scalable_storage.rs:132-138 | recording placements keeps the table in agreement with `place_block` and records every id |
| O1Storage.LocateAgrees | examples/o1_scalable_storage.rs:203-207 | with an agreeing table the group looked up is `place_block`'s, recorded or not |
| O1Storage.StoredFile | examples/o1_scalable_storage.rs:111-152 | storing a file's blocks keeps three groups |
| O1Storage.StoredHolds | examples/o1_scalable_storage.rs:141 | a stored block that no later block overwrites reads back as its data |
| O1Storage.StoredLeavesOthers | examples/o1_scalable_storage.rs:141 | storing blocks does not change what any other id reads |
| O1Storage.CollectStored | examples/o1_scalable_storage.rs:201-217 | reading the first `k` distinct stored ids back collects the first `k` blocks |
| O1Storage.CollectErrPrefix | examples/o1_scalable_storage.rs:214-216 | once a block is missing, the read keeps that first failure |
| O1Storage.CollectFails | examples/o1_scalable_storage.rs:201-217 | the read fails exactly when some listed block is missing |
| O1Storage.CollectAlike | examples/o1_scalable_storage.rs:201-217 | two stores that answer alike for every listed id read alike |
| O1Storage.CollectAnyTable | examples/o1_scalable_storage.rs:203-207 | reads through two agreeing placement tables are the same |
| O1Storage.WriteThenRead | examples/o1_scalable_storage.rs:111-229 | a file written and then read gives back its data, for a file of any length |
| O1Storage.WriteKeepsOtherFiles | examples/o1_scalable_storage.rs:141 | storing blocks under ids another file does not use leaves what that file reads |
| O1Storage.LaterFileTakesOverBlock | examples/o1_scalable_storage.rs:126 | block 1000 of a file is overwritten by writing the file whose hash is one larger, and then reads as that file's first block |
| O1Storage.SameHashServesLaterData | examples/o1_scalable_storage.rs:117-126 | after `a` and then `b` are written, two names that hash alike with data of one length, reading `a` returns `b`'s data |
| O1Storage.ScalableStorage.constructor | examples/o1_scalable_storage.rs:86-102 | three empty groups, no placements, no files, counters zero |
| O1Storage.ScalableStorage.Write | examples/o1_scalable_storage.rs:111-180 | block `i` holds its 4 KiB slice of the data, gets id `hash * 1000 + i`, is recorded in the placement table and stored on group `id % 3`; group 0 then lists the file with its ids; the write count goes up by one |
| O1Storage.ScalableStorage.WriteBlocks | examples/o1_scalable_storage.rs:122-152 | the block loop stores every block and records its placement, returning the file's ids |
| O1Storage.ScalableStorage.Read | examples/o1_scalable_storage.rs:183-229 | "File not found" unless group 0 lists the file, else its blocks read from the groups the table names, or `place_block`'s for an unrecorded id, and concatenated, failing at the first missing one; only a successful read is counted |
| StateMachineReplication.StepEffects | examples/state_machine_replication.rs:54-73 | `Set` stores its value and answers Ok; `Delete` leaves the key absent and answers Ok exactly when it was present, and changes nothing with "Key not found" otherwise; `Increment` adds its amount to the counter, starting from 0, and answers the new value; only `Increment` touches the counters |
| StateMachineReplication.StepsCommute | examples/state_machine_replication.rs:54-73 | commands on different keys commute |
| StateMachineReplication.CommuteWithSet | examples/state_machine_replication.rs:56-59 | a `Set` commutes with a command on another key |
| StateMachineReplication.CommuteWithDelete | examples/state_machine_replication.rs:60-66 | a `Delete` commutes with a command on another key |
| StateMachineReplication.CommuteWithIncrement | examples/state_machine_replication.rs:67-71 | an `Increment` commutes with a command on another key |
| StateMachineReplication.RunAppend | examples/state_machine_replication.rs:113-122 | applying a log in two parts is applying it whole |
| StateMachineReplication.CounterIsSum | examples/state_machine_replication.rs:67-71 | a counter ends at its start plus every amount added to that key, whatever else the log does |
| StateMachineReplication.Commands | examples/state_machine_replication.rs:25-29 | the commands of the entries, one per entry, in order |
| StateMachineReplication.WindowSnoc | examples/state_machine_replication.rs:114-120 | moving `last_applied` up by one adds the entry at the old position when the log holds it, and nothing otherwise |
| StateMachineReplication.CommandsSplit | examples/state_machine_replication.rs:113-122 | the first `m` commands followed by the window from `m` to `n` are the first `n` commands |
| StateMachineReplication.KVStateMachine.constructor | examples/state_machine_replication.rs:45-50 | empty string and counter maps |
| StateMachineReplication.KVStateMachine.Apply | examples/state_machine_replication.rs:54-73 | the new state and the response are one step of the command |
| StateMachineReplication.Replica.constructor | examples/state_machine_replication.rs:96-104 | an empty store and log, both indices zero, in step with its log |
| StateMachineReplication.Replica.AppendLogEntry | examples/state_machine_replication.rs:107-110 | the entry goes at the end of the log, nothing is applied, and a replica in step stays in step |
| StateMachineReplication.Replica.ApplyCommittedEntries | examples/state_machine_replication.rs:113-122 | `last_applied` climbs to `commit_index`, and the commands of the positions it passes that the log holds are applied in order |
| StateMachineReplication.Replica.ApplyNext | examples/state_machine_replication.rs:115-120 | one turn passes the next position and applies it when the log holds it |
| StateMachineReplication.Replica.UpdateCommitIndex | examples/state_machine_replication.rs:125-130 | only a larger index is taken, and then the newly committed entries are applied; a replica in step whose log holds every committed position stays in step |
| StateMachineReplication.FeedReplica | examples/state_machine_replication.rs:258-269 | a fresh replica fed commands one at a time, each appended and then committed, applies exactly those commands in order |
| StateMachineReplication.DeterministicExecution | examples/state_machine_replication.rs:231-269 | the three replicas end in one state: "x" maps to "10" and the counter "x" is 2 |
| StateMachineReplication.CommitBeforeAppend | examples/state_machine_replication.rs:113-130 | committing index 1 on an empty log and then appending an entry leaves a committed entry the store never reflects |
| Membership.FailedNodes | examples/membership_changes.rs:166-175 | exactly the listed members that are active and past the heartbeat timeout, without repeats |
| Membership.FirstMember | examples/membership_changes.rs:148 | the first member in iteration order, or none when the group is empty |
| Membership.FirstActive | examples/membership_changes.rs:196-198 | the first active member in iteration order, or none when no member is active |
| Membership.FirstActiveRemove | examples/membership_changes.rs:191-198 | removing a member other than the first active one keeps the first active one |
| Membership.FirstMemberIsFirstActive | examples/membership_changes.rs:146-198 | when every member is active, `handle_leave`'s choice of leader is `detect_failures`'s |
| Membership.PartitionMajority | examples/membership_changes.rs:221-230 | the smaller side never has a majority, and the larger one has it exactly when the total is odd |
| Membership.ActiveNodes | examples/membership_changes.rs:216-219 | exactly the active members, without repeats |
| Membership.InitialMembers | examples/membership_changes.rs:44-51 | every initial node, active, with both readings at the start time |
| Membership.DistinctCount | examples/membership_changes.rs:216-221 | a listing without repeats counts the members once each |
| Membership.RemoveFailed | examples/membership_changes.rs:177-204 | the failed nodes are removed and every other member kept as it was; a removed leader is replaced by the first active member left, and any other leader stays |
| Membership.ConsensusGroup.constructor | examples/membership_changes.rs:40-64 | every initial node active, epoch 1, the first node leading |
| Membership.ConsensusGroup.HandleJoin | examples/membership_changes.rs:67-116 | a node already in the group is refused and nothing changes; otherwise it is added active, stamped at the join time, and the epoch goes up by one |
| Membership.ConsensusGroup.HandleLeave | examples/membership_changes.rs:119-156 | a non-member and a non-active member are refused with their own messages and nothing changes; otherwise the node is removed, the epoch goes up by one, and a departing leader is replaced by the first remaining member, or by none |
| Membership.ConsensusGroup.DetectFailures | examples/membership_changes.rs:159-209 | exactly the active members past the timeout are removed, one epoch each; every other member is kept as it was; a failed leader is replaced by the first active member left, and any other leader stays |
| Membership.ConsensusGroup.CollectFailed | examples/membership_changes.rs:164-175 | the active members past the timeout, in iteration order |
| Membership.ConsensusGroup.UpdateHeartbeat | examples/membership_changes.rs:249-254 | a member's last heartbeat becomes the time given, a non-member changes nothing, and epoch and leader stay |
| Membership.ConsensusGroup.SimulatePartition | examples/membership_changes.rs:212-246 | the active members are counted and split in half, and each half's progress is the majority test on it |
| Membership.ListsCount | examples/membership_changes.rs:216-221 | a listing without repeats of a set is as long as the set |
| Membership.FormAndJoin | examples/membership_changes.rs:272-291 | after the group of three forms and node 4 joins: epoch 2, node 1 leads, four members |
| Membership.Prelude | examples/membership_changes.rs:272-303 | after node 2 leaves and nodes 1 and 4 send heartbeats: epoch 3, node 1 leads, three members, node 3 last heard at the start |
| Membership.DetectOnlyN3 | examples/membership_changes.rs:159-209 | when only node 3 is past the timeout, it alone is removed and node 1 keeps leading, at epoch 4 |
| Membership.DetectAll | examples/membership_changes.rs:159-209 | when all three are past the timeout, each is removed, no leader is left, and the epoch is 6 |
| Membership.PartitionOfTwo | examples/membership_changes.rs:212-246 | two active members split one and one, and neither side can progress |
| Membership.MembershipDemo | examples/membership_changes.rs:268-327 | as written, with the heartbeats sent before the 600 ms wait, detection removes all three remaining nodes: the group ends empty and leaderless at epoch 6 |
| Membership.IntendedMembershipDemo | examples/membership_changes.rs:300-313 | with the heartbeats sent just before detection, node 3 alone is removed and node 1 keeps leading two members at epoch 4 |
| ConsensusBasics.Majority | examples/consensus_group_basics.rs:73 | the least count that is more than half of the voters |
| ConsensusBasics.MajoritiesOverlap | examples/consensus_group_basics.rs:73 | two majorities of the same voters cannot come from disjoint sets of them |
| ConsensusBasics.Decimal | examples/consensus_group_basics.rs:115 | at least one digit, two or more exactly from 10 on, all decimal digits |
| ConsensusBasics.DecimalInjective | examples/consensus_group_basics.rs:115 | different numbers are written differently |
| ConsensusBasics.NodeNamesDistinct | examples/consensus_group_basics.rs:114-116 | nodes at different positions get different names |
| ConsensusBasics.VotesOf | examples/consensus_group_basics.rs:62-71 | at most one vote per node of the slice |
| ConsensusBasics.CGNode.constructor | examples/consensus_group_basics.rs:20-29 | an empty state, a follower at term 0, last heard at the time given |
| ConsensusBasics.CGNode.Write | examples/consensus_group_basics.rs:32-45 | a follower refuses with "Not the leader" and keeps its state; a leader stores the value; role, term and heartbeat stay |
| ConsensusBasics.CGNode.Read | examples/consensus_group_basics.rs:48-50 | the value stored for the key, exactly when one is |
| ConsensusBasics.CGNode.ElectionTimedOut | examples/consensus_group_basics.rs:86-90 | true exactly for a follower last heard more than 300 ms ago; a leader never times out |
| ConsensusBasics.CGNode.Elect | examples/consensus_group_basics.rs:53-83 | the candidate moves to the next term; every node of another name whose term is behind votes and adopts that term; the candidate leads, with a fresh heartbeat, when its votes reach the majority; other nodes keep role and state |
| ConsensusBasics.CGNode.AttemptLeadership | examples/consensus_group_basics.rs:53-83 | as `Elect`, with the majority taken of the slice handed in plus one |
| ConsensusBasics.CGNode.AttemptLeadershipInGroup | examples/consensus_group_basics.rs:53-83 | as `Elect`, with the majority taken of the whole group |
| ConsensusBasics.CGNode.SendHeartbeat | examples/consensus_group_basics.rs:93-103 | a leader refreshes every follower of another name, so none of them times out; a follower sends nothing; nothing else changes |
| ConsensusBasics.ConsensusGroup.constructor | examples/consensus_group_basics.rs:113-124 | `node_count` fresh distinct nodes named by position, in the group, the first one leading |
| ConsensusBasics.ConsensusGroup.GetLeader | examples/consensus_group_basics.rs:127-129 | the first node that believes it leads, or none exactly when no node does |
| ConsensusBasics.ConsensusGroup.Partition | examples/consensus_group_basics.rs:132-141 | the first `partition_size` nodes and the rest, together the whole group |
| ConsensusBasics.FirstLeader | examples/consensus_group_basics.rs:204 | the first node of a slice that believes it leads, or none exactly when no node does |
| ConsensusBasics.VotesBounded | examples/consensus_group_basics.rs:62-71 | with its own vote, a candidate collects at most one vote per node of the slice |
| ConsensusBasics.MinorityElects | examples/consensus_group_basics.rs:212-221 | in the two-node slice of the five-node group, the first node wins the election |
| ConsensusBasics.MinorityCannotElect | examples/consensus_group_basics.rs:212-221 | with the majority taken of the whole group, a slice holding at most half of it never elects its candidate |
| CapDemo.MergeData | examples/cap_demo.rs:72-79 | the local copy when its version is strictly later, the remote copy otherwise |
| CapDemo.MergeKeepsLatest | examples/cap_demo.rs:72-79 | the merged copy is one of the two and its version is at least both versions |
| CapDemo.MergeSymmetric | examples/cap_demo.rs:72-79 | with distinct versions the merge does not depend on which copy is local, and a copy merged with itself is itself |
| CapDemo.LatestOf | examples/cap_demo.rs:313-327 | one of the three copies, with a version at least each of theirs; the first when neither other is later, the third when it is later than both |
| CapDemo.DataNode.constructor | examples/cap_demo.rs:30-39 | a fresh clock at zero, a lease manager of this node over it, an empty store and an empty connectivity table |
| CapDemo.DataNode.SetConnectivity | examples/cap_demo.rs:41-43 | the table records the answer for the peer, and the store stays |
| CapDemo.DataNode.CanReach | examples/cap_demo.rs:45-47 | the recorded answer, and reachable when none is recorded |
| CapDemo.DataNode.Write | examples/cap_demo.rs:49-63 | without a write lease covering the path "No write lease" and nothing stored; with one the clock ticks and the path holds the content at the new time, written by this node |
| CapDemo.DataNode.Read | examples/cap_demo.rs:65-67 | the stored copy of the path, exactly when there is one |
| CapDemo.ReplicateData | examples/cap_demo.rs:81-95 | true exactly when the target is reachable and the source holds the path; then the target's clock takes in the copy's version and the target stores the copy unmerged; otherwise nothing changes |
| CapDemo.ReplicateViaRelay | examples/cap_demo.rs:98-108 | succeeds exactly when the source reaches the relay, the relay reaches the target and the source holds the path, and the target then holds the source's copy; with a hop missing nothing changes |
| LeaseSkew.ExpiryOf | examples/lease_migration_with_clock_skew.rs:52-55 | the expiry lies after the grant time exactly when the duration is positive |
| LeaseSkew.Decide | examples/lease_migration_with_clock_skew.rs:43-67 | the request is refused, naming the holder and its expiry and leaving the table, exactly while the path's lease runs past the consensus time; otherwise the path gets a new lease for the requester from the consensus time for the duration, and every other path keeps its lease |
| LeaseSkew.GrantExcludesUntilExpiry | examples/lease_migration_with_clock_skew.rs:43-48 | once a path is granted, every request judged before that lease expires is refused naming the holder, and the table stays |
| LeaseSkew.ExpiredLeaseIsReplaced | examples/lease_migration_with_clock_skew.rs:43-67 | once the lease has expired by the consensus clock, the next request is granted to its requester |
| LeaseSkew.ConsensusGroup.constructor | examples/lease_migration_with_clock_skew.rs:26-32 | no leases and a fresh clock at zero |
| LeaseSkew.ConsensusGroup.ProcessLeaseRequest | examples/lease_migration_with_clock_skew.rs:36-68 | the clock takes in the request's stamp and ticks, its physical time never moving back, and the decision is taken at the resulting consensus time |
| LeaseSkew.ConsensusGroup.CheckLease | examples/lease_migration_with_clock_skew.rs:70-73 | the clock takes in the stamp, and the path's lease is returned unchanged exactly when there is one |
| LeaseSkew.SkewedReading | examples/lease_migration_with_clock_skew.rs:98-109 | the wall clock reads the true time plus the skew |
| LeaseSkew.SkewedNode.constructor | examples/lease_migration_with_clock_skew.rs:95-121 | a fresh clock at zero driven by the skewed wall clock, the name, skew and group given, all counters zero |
| LeaseSkew.SkewedNode.TryWrite | examples/lease_migration_with_clock_skew.rs:124-143 | every attempt is counted; the write succeeds, and is counted, exactly when the group holds a lease for the path that runs past the node's stamp and names this node; otherwise it fails as held by another, expired, or without a lease |
| LeaseSkew.SkewedNode.AcquireLease | examples/lease_migration_with_clock_skew.rs:145-162 | the group decides the request stamped by the node's clock; the answer is the group's and only a grant is counted |
| PartitionRecovery.OutcomeOf | examples/consensus_group_partition_recovery.rs:53-59 | the replica knows the scope afterwards, and is unchanged when the request is refused |
| PartitionRecovery.RefusalsOf | examples/consensus_group_partition_recovery.rs:112-117 | at most one refusal per node asked |
| PartitionRecovery.CGNode.constructor | examples/consensus_group_partition_recovery.rs:18-45 | a fresh clock at zero under the given skew and an empty replica |
| PartitionRecovery.CGNode.RequestLease | examples/consensus_group_partition_recovery.rs:47-62 | the clock ticks; the request is refused, naming the lease it meets, exactly when the replica knows a lease still valid at the new time, and otherwise the node grants the scope to itself; either way the replica then knows the scope |
| PartitionRecovery.CGNode.SyncWith | examples/consensus_group_partition_recovery.rs:64-81 | each clock takes in the other's reading, and each replica merges the other's copy taken before either merge, so both know every scope of either |
| PartitionRecovery.MergedKeys | src/rhc/crdt/lease_state.rs:134-141 | a merged replica knows exactly the scopes of both sides |
| PartitionRecovery.TiedGrantsStayApart | examples/consensus_group_partition_recovery.rs:195-202 | two nodes that grant one scope to themselves at one clock time keep different holders after they sync |
| PartitionRecovery.TiedGrantsConverge | examples/consensus_group_partition_recovery.rs:247 | with the tie-broken merge, the same two grants leave both replicas with one holder, one of the two nodes |
| PartitionRecovery.JoinedStamp | src/rhc/crdt/lww_register.rs:50-63 | the timestamp a merge keeps is the later one: it is at least a given timestamp exactly when one side's is |
| PartitionRecovery.KnowMerged | src/rhc/crdt/lease_state.rs:134-141 | a merged replica knows exactly the facts either side knew, a fact being a known scope or a timestamp reached for it |
| PartitionRecovery.MergedPicks | src/rhc/crdt/lease_state.rs:134-141 | each register of a merged replica is the one one of the two sides held for that scope |
| PartitionRecovery.KnowsAfterSync | examples/consensus_group_partition_recovery.rs:64-81 | a sync gives both nodes the union of their facts, and changes no other node's |
| PartitionRecovery.OriginsAfterSync | examples/consensus_group_partition_recovery.rs:64-81 | after a sync every register is still one some replica held at the start |
| PartitionRecovery.FactHeldAtStart | examples/consensus_group_partition_recovery.rs:130-139 | each scope a replica holds at the start, with the timestamp it holds, is among the facts the sync spreads |
| PartitionRecovery.AllKnownConverged | examples/consensus_group_partition_recovery.rs:130-139 | replicas that each know every fact of the start, and hold only registers of the start, have converged from it |
| PartitionRecovery.ConvergedKeys | examples/consensus_group_partition_recovery.rs:130-139 | converged replicas know exactly the scopes some replica knew at the start |
| PartitionRecovery.ConvergedSameStamp | examples/consensus_group_partition_recovery.rs:247 | converged replicas hold the same timestamp for every scope |
| PartitionRecovery.ConvergedOnSoleLatest | examples/consensus_group_partition_recovery.rs:200-202 | when one register of the start is strictly the latest for a scope, every converged replica holds exactly that register |
| PartitionRecovery.UnionBounds | examples/consensus_group_partition_recovery.rs:134-138 | each of the sets lies in their union, and a union lies in any longer one |
| PartitionRecovery.UnionHas | examples/consensus_group_partition_recovery.rs:134-138 | whatever lies in a union lies in one of the sets |
| PartitionRecovery.UnionAddOne | examples/consensus_group_partition_recovery.rs:112-117 | adding one scope to every key set adds it to the union |
| PartitionRecovery.RefusalsStep | examples/consensus_group_partition_recovery.rs:113-116 | asking one more node appends its refusal, with its name, if it refuses |
| PartitionRecovery.Views | examples/consensus_group_partition_recovery.rs:112 | what each node shows a request at the given time |
| PartitionRecovery.ConsensusGroup.constructor | examples/consensus_group_partition_recovery.rs:91-101 | one fresh node per name and skew, in order, each with its clock at zero and an empty replica |
| PartitionRecovery.ConsensusGroup.ProcessLeaseRequest | examples/consensus_group_partition_recovery.rs:103-128 | succeeds exactly when the grants reach a majority; then every replica knows every scope known before plus the new one, and the replicas have converged from the outcomes of the answers (`Converged`: each replica holds, for every scope, a register some node held after answering, with the latest timestamp any of them held); otherwise it fails with the refusals met, and each node keeps the outcome of its own answer |
| PartitionRecovery.ConsensusGroup.RequestAll | examples/consensus_group_partition_recovery.rs:112-117 | every node takes the outcome of its answer, and the refusals are collected in order; the replicas are the outcomes, node by node |
| PartitionRecovery.ConsensusGroup.RequestLoop | examples/consensus_group_partition_recovery.rs:112-117 | every node, in order, takes the outcome of its answer against the views taken before, and its refusal, if any, is collected |
| PartitionRecovery.ConsensusGroup.SyncAllNodes | examples/consensus_group_partition_recovery.rs:130-139 | afterwards every replica knows every scope any replica knew, and holds for each scope a register some replica held before, with the latest timestamp any replica held for it (`Converged`) |
| PartitionRecovery.ConsensusGroup.SyncRow | examples/consensus_group_partition_recovery.rs:135-137 | after row `i`, nodes up to `i` know every fact known at the start, and every register is one held at the start |
| PartitionRecovery.ConsensusGroup.AskOne | examples/consensus_group_partition_recovery.rs:113 | node `i` alone answers and takes the outcome, and no other node's clock or replica changes |
| PartitionRecovery.ConsensusGroup.SyncPair | examples/consensus_group_partition_recovery.rs:136 | node `i`'s replica becomes its merge with node `j`'s old replica and node `j`'s its merge with node `i`'s old replica; every other replica is unchanged, whole |
| PartitionRecovery.RowStart | examples/consensus_group_partition_recovery.rs:134-135 | row `i` starts where the earlier rows left off |
| PartitionRecovery.RowStep | examples/consensus_group_partition_recovery.rs:135-137 | syncing nodes `i` and `j` moves row `i` on to `j + 1` |
| PartitionRecovery.RowDone | examples/consensus_group_partition_recovery.rs:134-138 | a finished row leaves its node knowing everything |
| PartitionRecovery.ConcurrentRequests | examples/consensus_group_partition_recovery.rs:189-204 | after each node is asked on its own and the group syncs, every replica knows the scope and everything known before; the replicas have converged from the outcomes of the answers, hold one timestamp for the scope, and hold one and the same entry for it when one outcome's entry is strictly the latest |
| PartitionRecovery.HealedScopes | examples/consensus_group_partition_recovery.rs:216-225 | after node 0 gains one scope, node 1 another, and nodes 1 and 2 sync, the replicas together know both new scopes and everything known before |
| PartitionRecovery.PartitionAndHeal | examples/consensus_group_partition_recovery.rs:207-239 | after the partition heals with a full sync, every replica knows both scopes and everything known before |

## Left out

- Concurrency: locks, atomics, `DashMap` and spawned tasks are single sequential updates. Properties of threads racing on one clock, such as unique timestamps under concurrent `now`, are not stated.
- I/O and time: wall-clock readings (`SystemTime`, `Instant`, `Utc::now`), sleeps and printing are not modelled. A reading is a parameter, one per request or sync step; what a demo prints (`show_state`, `print_membership`, `print_stats`, the active-lease listing of the partition demo) is not modelled.
- Nondeterministic ids: `LeaseId::new`, `Uuid::new_v4` and key generation are parameters.
- Cryptography: BLS aggregation and verification, Ed25519 signing, `public_key`, key generation and blake3 `hash` are not modelled. Their answers are parameters (`verify_threshold_signature`, the aggregation outcome); `InMemoryStorage::checkpoint` is left out because it is a hash.
- Serialization: bincode decoding of operations and proofs is a parameter; `Manifest::save`/`load`, the JSON of `NetworkMessage` and the iroh document wrappers are file or network I/O, and `snapshot`/`restore` of the replicated-log demo only format text.
- `key_from_file` and `get_paths_in_dir` in `src/lis-proto-1/util.rs` are left out: they call `path_to_key` and the file system.
- Floating point: compression ratios, timing statistics and `has_sparse_pattern` are left out. `from_data_pattern` takes the sparseness verdict as a parameter and keeps its discrete branches.
- Timestamps in file metadata: the `created`/`modified` fields and the `InodeAttributes` times are not carried.
- Lease acquisition inside the storage examples: every `write_block` takes a block-scope lease, which `LeaseTable.BlockScopesNeverBlocked` shows never conflicts, so the stores always succeed and the leases they take are not kept.
- `DEFAULT_CHUNK_SIZE` of `src/objects/file.rs` is defined outside the modelled files, so the chunk size is a constructor parameter.
- Hash maps iterate in an unspecified order: where the source depends on it (the leader chosen by `handle_leave` and `detect_failures`), the order is a parameter.
- `Object::new` in `src/lis-proto-1/object.rs` panics on `Symlink`: the kind is required to be a file or directory.
- u64 arithmetic on hashes, block ids and expiries is unbounded here, and the i64 `Increment` of the replicated-log demo does not wrap.
- The skewed clocks of the two lease demos subtract a negative skew as a u64, which underflows for readings below the skew; the model reads `real + skew` and requires the reading to stay non-negative.
- LeaseSkew.SkewedNode.AcquireLease: the local `LeaseManager::acquire_lease` call is not modelled. The source discards only its result (`let _ =`); the call also ticks the node's own clock (src/rhc/leases/manager.rs:77) and stores a lease in the node's lease state, and neither the tick nor that local lease is stated. `clock_corrections` is never changed by the source and stays zero.
- `ConsensusGroup::process_lease_request` of the partition demo joins its refusals into one string; the model keeps them as a list of (node, lease) pairs.
- LeaseSkew.ConsensusGroup.ProcessLeaseRequest: the refusal message that `format!` builds at examples/lease_migration_with_clock_skew.rs:47 is kept as a `Refusal` value holding the holder and the expiry; the text itself is not modelled.
- `main` of the partition demo is modelled through its three tests. Of `consensus_group_basics.rs`, only the election inside the minority partition is modelled (`ConsensusBasics.MinorityElects`), together with the group's operations that `run_simulation` calls; the steps of `run_simulation` themselves are not: the writes of `key1` and `key2`, the copy of the leader's state, the leader's failure and the election of `nodes[1]`. Nor is the election in the majority partition of `main`.
- `main` of `store_rip_manifesto.rs` is modelled on the group values its loops build, not on the file it reads.
- StateMachineReplication.DeterministicExecution: the three replicas are fed one after another rather than by one loop over all three.
- RhcCrypto.ThreeSharesTest: the aggregation test of `rhc/tests/global_consensus.rs` is taken at threshold 3 instead of 5.
- FuseFs.WriteIsolation: files are kept apart only while writes stay within the first 1000 blocks of an inode; past that the block ids run into the next inode's, which `FuseFs.LargeWriteReachesNextInode` shows.
- Fuse.Blocks: the u64 sum `size + 511` is required not to overflow.
- Hlc.UpdateMonotone: monotonicity is proved only while the 32-bit logical counter does not wrap.
- LeaseSkew.SkewedReading: states the reading for the skews that do not underflow.
- Leases.Renew: `renew` mutates a lease in place; here it returns the renewed lease, because leases are held by value inside the table maps.
- Leases.RenewEffect: `renewal_count` is a `u32` raised by `+= 1` (src/rhc/leases/lease.rs:106, 159), which overflows after 2^32 - 1 renewals; the model counts renewals as an unbounded natural.
- RhcConsensus.BftConsensus.Propose, RhcConsensus.BftConsensus.SignProposal and RhcConsensus.BftConsensus.TryAggregate: each send on the message channel (rhc/src/consensus.rs:66-67, 117-118, 174-175) fails with `Failed to send message` once the receiver is dropped, and the `?` returns that error; the model keeps the receiver alive, so every send succeeds and this error path is not modelled.
- PnCounter.PNCounter.Value: the counts are `u64` cells whose `+=` and `sum()` can overflow, and `value` casts both sums to `i64` before subtracting, which wraps for sums past 2^63 - 1 (src/rhc/crdt/pn_counter.rs:11-13, 25-38); the model keeps unbounded counts and returns the exact difference. PnCounter.PNCounter.Increment and PnCounter.PNCounter.Decrement likewise add without the `u64` bound.
- The RGA walks of `to_vec` and `find_insert_position` carry a fuel bound: a chain that does not end within it counts as non-terminating, and the model states acyclicity as a property of the replica instead of running a loop that might not stop.
- `CGNode` of `consensus_group_basics.rs` hands a slice of shared nodes to `attempt_leadership`; the model requires the nodes of a slice to be distinct objects, as the group's constructor makes them.
- Hlc.Clock.Update: runs the corrected update (`Hlc.CorrectedUpdate`), not the rule of `src/rhc/hlc.rs:136-149` as written. As written, last (100, 5), wall 100 and remote (50, 0) store (100, 0); the corrected update stores (100, 6). The rule as written is only the pure function `Hlc.UpdateAsWritten`.
- CapDemo.ReplicateData: the target's clock takes in the version by the corrected HLC update, not by the update as written.
- LeaseSkew.ConsensusGroup.ProcessLeaseRequest: the group's clock takes in the request's stamp by the corrected HLC update, not by the update as written.
- LeaseSkew.ConsensusGroup.CheckLease: the group's clock takes in the stamp by the corrected HLC update, not by the update as written.
- LeaseSkew.SkewedNode.AcquireLease: the group it calls runs the corrected HLC update, not the update as written.
- PartitionRecovery.CGNode.SyncWith: both clocks take in the other's reading by the corrected HLC update, not by the update as written; so do the group members that call it.
- Rga.RGA.InsertAfter: runs the corrected insertion. The new element is linked after its slot, and the old successor is kept. The `next` rewiring of `src/rhc/crdt/rga.rs:57-61` as written drops elements and is only the pure function `Rga.InsertedAsWritten`.
- ObjectsFile.LisFile.Write: runs the `Intended` cut, so each chunk receives the bytes of the write that fall inside it. The cut of `src/objects/file.rs:123-141` as written is only the `AsWritten` case of `ObjectsFile.WriteOutcome`.
- RhcLease.LeaseManager.RenewLease: the source holds a `DashMap` read guard on the old lease while it inserts the new one, which can deadlock when the new id falls in the same shard; the model returns the renewal.
- RhcLease.RenewEffect: states the renewal outcome as if the insert under the read guard always completes.
- DocTypes.DocTypeFrom: `String::from_utf8(..).unwrap()` panics on bytes that are not UTF-8; the model requires valid UTF-8 instead of modelling the panic.
- FuseFs.LisFs.Write: `offset + data.len() - 1` underflows for an empty write at offset 0, before any inode check; the model requires `offset + |data| >= 1` instead of modelling the panic.
- FuseFs.LisFs.Read: for a known inode, `offset + size - 1` underflows when both are 0; the model requires `offset + size >= 1` in that case only. An unknown inode is answered with `ENOENT` for every offset and size.
- ConsensusBasics.ConsensusGroup.Partition: the slice `nodes[..partition_size]` panics when the size exceeds the node count; the model requires `partitionSize <= |nodes|` instead of modelling the panic.
- StoreRip.Manifesto: for an empty file `stored_blocks` is empty, and the random-access step indexes it and panics; the model covers only the playback and integrity check, which hold for every file.
- HybridTime: `Utc::now()` has sub-millisecond precision and `num_milliseconds` truncates the difference toward zero; the model counts the wall clock in whole milliseconds, so the sub-millisecond part of the offset is not modelled.

## Findings

| source | as written | input that shows it | evidently intended | confidence | as-written member | corrected member |
|---|---|---|---|---|---|---|
| src/rhc/hlc.rs:136-149 | when `last_physical` ties the maximum but not both other readings, the new logical value ignores `last_logical` (0 or `remote.logical + 1`) | last (100, 5), wall 100, remote (50, 0) gives (100, 0), below the previous `last()` | an update never returns a timestamp below the previous one | not executed | Hlc.UpdateAsWrittenNotMonotone | Hlc.UpdateMonotone |
| src/rhc/crdt/rga.rs:57-61 | `insert_after` sets `prev.next` only when no later element is found, and then drops the old tail; otherwise nothing points at the new element | root, A, B and inserting X above B after A gives "AX"; inserting Y below A after the root of "A" leaves "A" | the new element appears right after its slot and every other element stays | not executed | Rga.InsertAsWrittenLosesSuccessor | Rga.InsertKeepsEverything |
| rhc/src/consensus.rs:116-141 | shares are keyed by round only, so shares for different values of one round count together | four nodes at threshold 3, proposals X and Y for round 1: two nodes commit different values | all nodes commit the same value for a round | not executed | RhcConsensus.RoundKeyedSharesConflict | RhcConsensus.ValueKeyedCommitsAgree |
| src/objects/file.rs:123-141 | the write loop cuts the data as if it began at the start of the file | a 4-byte write at offset 2 of a 2-byte file with 4-byte chunks | chunk `i` receives the bytes of the write that fall inside it | not executed | ObjectsFile.AsWrittenCutMisplacesData | ObjectsFile.IntendedWrite |
| examples/consensus_group_basics.rs:73 | the majority is taken of the slice handed in plus one | the two-node partition of a five-node group elects a leader | a slice holding at most half of the group cannot elect | not executed | ConsensusBasics.MinorityElects | ConsensusBasics.MinorityCannotElect |
| examples/membership_changes.rs:300-309 | the heartbeats of node 1 and node 4 are sent before the 600 ms wait | the demo as written: every node is silent past the timeout at detection | only node 3, which sent no heartbeat, is detected as failed | not executed | Membership.MembershipDemo | Membership.IntendedMembershipDemo |
| src/rhc/crdt/lww_register.rs:118 | the test's comment calls merge commutative, but the strict `>` at line 59 keeps the receiver's value when the timestamps tie | registers "value1" and "value2", both at (100, 0): each side keeps its own value after merging the other | merge is commutative, ties included | not executed | LwwRegister.JoinTieKeepsReceiver | LwwRegister.TieBrokenJoinCommutative |
| examples/consensus_group_partition_recovery.rs:247 | the demo claims every node converges to the same state, but `sync_with` merges with that register merge, so entries tied on timestamp stay apart | nodes a and b each grant one scope to themselves at one clock time and sync: a's replica keeps a, b's keeps b | after a sync all replicas hold the same state | not executed | PartitionRecovery.TiedGrantsStayApart | PartitionRecovery.TiedGrantsConverge |
