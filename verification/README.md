# Verified model of the log coordination and storage core

This project models, in Dafny, the parts of the Merkle tree certificate authority
whose correctness rests on interleavings, on agreement between two implementations, or
on exact arithmetic, and proves properties of them over all inputs and all runs.

- **Lease protocol** (`Lease`, `LeaseProtocol`, `LeaseTiming`, `LeaseOnDynamo`).
  Many regions contend for one lease item through conditional writes. Every
  operation is split at its store calls; clocks are inputs of each step. Epoch
  safety, fencing and timed exclusion are separate theorems, because the takeover
  write compares the epoch and not the expiry: the first two need nothing about
  clocks, the third needs exactly the hypotheses it states.
- **Key-value store** (`ReplicatedKv`, `MemoryKv`, `Transactions`,
  `IndexAllocation`). The in-memory backend is the reference semantics.
- **DynamoDB backend** (`DynamoCodec`, `DynamoExpressions`, `DynamoService`,
  `DynamoKv`, `DynamoSimulation`, `DynamoQuery`, `DynamoRuns`). Operations are compiled into
  requests with placeholders; the service is a table with an evaluator for the
  expressions the code emits, and rejects what DynamoDB documents it rejects
  (unbound, unused or explicitly empty placeholders, overlapping paths, an empty
  key half, an empty transaction or one naming a key twice). The backend
  simulates the reference on the fragment named in `InFragment`: splittable keys,
  updates of map-valued or missing items naming distinct non-empty attributes,
  non-empty transactions on distinct keys, query prefixes without a leading slash, and
  no sum beyond 64 bits. That the answers differ exactly when a sum leaves that range
  is proved for single updates and for transactions.
- **Fake clock** (`FakeClock`, `Interval`): compare-exchange loops of any number of
  threads, sleepers that must not lose a wakeup, and the cadence ticker.
- **Object store with retention** (`ObjectLock`), **replication**
  (`LagScheduler`, `LastWriterWins`,
  `Fingerprint`, `DdbReplicator`, `ReplicaRuns`), **checkpoint signing**
  (`CheckpointFraming`, `CheckpointSigner`), **ACME nonces and accounts**
  (`Acme`), **hex codec** (`Hex`).

Objects with mutable fields are classes whose methods are proved equal to
specification functions; the run theorems are about those functions. Clock
readings, random values, HSM answers, the order in which the service returns rows,
what other threads do between two of our steps, and the verdicts of cryptography
and JSON parsing are inputs.

Where the code and its comments differ, the model follows the code:

- An acquisition, renewal or takeover whose expiry the platform cannot represent is
  written and still answered with a malformed-lease error; a takeover wins the epoch
  that way (`AcquireErrsAfterWritingIff`, `RenewErrsAfterWritingIff`,
  `ClaimErrsAfterWinningIff`).
- Renewal is guarded by holder and epoch but not by region; the region stays the
  one stored at the takeover.
- The retry policy's comment says the capped delay always fits 64 bits and that an
  index past 63 is far beyond the cap. `CapsThatShow` gives policies for which
  neither holds, `NarrowingShowsIff` and `CapReachedIff` say exactly which those are.
- The reported number of HSM attempts saturates: it is exact unless 2^32 calls
  were made (`SucceedsIff`).
- The lag scheduler is documented to drain every item whose lag has elapsed. It
  stops at the first item that is not due (`DueItemStaysBehind`); `DrainIsExactIff`
  gives the exact condition and `DrainsExactly` the runs that meet it.
- Everything queued during a stall is documented to be due at once when it ends.
  `YoungItemOutlivesTheStall` is a run where it is not; `CatchUpBurst` says exactly
  when it is.
- Last-writer-wins is documented without exception. Removals leave no timestamp, so a
  removal that is the newest write can lose (`NewestWinsIff`, `OrderMattersIff`); and
  the changes of one pass share a timestamp, so the first upsert of a key shuts out
  later content and removals of it (`FirstOfAPassWins`), a removal for good
  (`RemovalInOnePassIsLost`).
- The fingerprint of a row is documented to be equal for equal content. Only its top
  level is sorted; a nested map prints in its own iteration order, so an unchanged row
  can be queued again, and every lease row can (`QueuedOnceIff`, `LeaseRowsRepeat`).
- The replicator's key is documented to let each change be replicated. It remembers
  every fingerprint of a key, and one disappearance of it, for ever: a row recreated
  as it was, a row changed back and a second removal are never queued and the target
  stays wrong (`RecreatedRowIsLost`, `RowChangedBackIsLost`, `SecondRemovalIsLost`).
  `NextScanQueuesIff` says exactly which changes are queued, `ReplicatesIff` exactly
  when the target follows the source.

## Model

| member | source | states |
|---|---|---|
| `LeaseProtocol.EpochSafety` | crates/coordination/src/protocol.rs:296-406 | For every interleaving of any number of coordinators, with claims split into read, clock check and write and with arbitrary clocks: one acquisition opens the history at the initial epoch, between two successful writes the epoch grows by exactly the number of takeovers, each epoch belongs to one (holder, region), and of all claims that observed an epoch at most one succeeds. |
| `LeaseProtocol.StoredEpochMonotone` | crates/coordination/src/protocol.rs:24-34 | However a run continues, the stored epoch never decreases and the lease item never disappears. |
| `LeaseProtocol.Fencing` | crates/coordination/src/protocol.rs:63-91 | In every run the tokens of landed commits never decrease, and none lands under an epoch older than a takeover before it, even when the incumbent renews between the challenger's read and its write. |
| `LeaseProtocol.CommitLandsIff` | crates/coordination/src/protocol.rs:63-91 | A fenced commit lands if and only if its epoch is the stored one and the caller's operations can be performed; then the history gains it with the lease as it was, and otherwise the state is unchanged. |
| `LeaseProtocol.CasVerdict` | crates/coordination/src/protocol.rs:386-405 | The takeover write wins exactly when the stored epoch is the observed one, answers "epoch advanced" exactly when it is not, and then writes nothing; its decision does not look at the expiry. |
| `LeaseProtocol.RunKeepsInv` | crates/coordination/src/protocol.rs:296-406 | The stored item is always the encoding of the last successful write, successive writes follow the protocol, and every claim in flight observed a lease that really was stored and passed its check against it. |
| `LeaseProtocol.OneOwnerPerEpoch` | crates/coordination/src/protocol.rs:16-22 | Two writes with the same epoch carry the same holder and region. |
| `LeaseProtocol.EpochCountsTakeovers` | crates/coordination/src/protocol.rs:321-406 | Renewals and commits leave the epoch alone; each takeover adds one. |
| `LeaseProtocol.NeverMalformed` | crates/coordination/src/protocol.rs:187-203 | With representable instants a read in any reachable state returns the last lease written, or "no lease"; never a malformed one. |
| `LeaseProtocol.AcquireErrsAfterWritingIff` | crates/coordination/src/protocol.rs:296-304 | In any reachable state an acquisition that answers with an error has written the item if and only if there was none and its expiry is not representable. |
| `LeaseProtocol.RenewErrsAfterWritingIff` | crates/coordination/src/protocol.rs:321-337 | A renewal is written exactly for the stored holder and epoch, and a written one is answered with an error exactly when the new expiry is not representable. |
| `LeaseProtocol.ClaimErrsAfterWinningIff` | crates/coordination/src/protocol.rs:386-405 | A claim wins the epoch and is still answered with an error if and only if the epoch was the observed one and its expiry is not representable. |
| `LeaseProtocol.DeletionResetsTheEpoch` | crates/coordination/src/protocol.rs:24-34 | Why the item must never be deleted: after a deletion, whatever lease was held, an acquisition stores epoch 1, which is lower exactly when the epoch had ever been advanced. |
| `LeaseProtocol.ClaimIsThreeSteps` | crates/coordination/src/protocol.rs:361-406 | In any reachable state a claim run without interference leaves the store of the protocol's read, check and write steps run back to back, and the history gains a takeover exactly when the claim wrote its lease. |
| `LeaseProtocol.OperationIsStep` | crates/coordination/src/protocol.rs:296-337 | In any reachable state acquiring and renewing leave the store of the protocol's step, and the history gains the event exactly when they wrote. |
| `LeaseTiming.TimedExclusion` | crates/coordination/src/protocol.rs:118-124 | If clocks agree up to the safety margin, nothing saturates and the item is the one that was read, then the demoted holder's own clock had reached its last expiry when the winning claim checked. |
| `LeaseTiming.ExclusionExactly` | crates/coordination/src/protocol.rs:361-401 | A winning takeover excludes the demoted holder for every admissible skew if and only if the margin has passed since the expiry stored at the write (or that expiry is zero); it can only fail after a renewal between the read and the write, or under saturation. |
| `LeaseTiming.RenewalInTheGap` | crates/coordination/src/protocol.rs:18-22 | A concrete run in which the incumbent renews inside the gap: the takeover still wins, a minute before the new expiry on a clock in full agreement, and the incumbent's next commit is refused. |
| `Lease.DecodeEncode` | crates/coordination/src/protocol.rs:146-203 | Decoding inverts encoding exactly when the expiry is representable, and reports a malformed lease otherwise. |
| `Lease.DecodesExactly` | crates/coordination/src/protocol.rs:169-203 | Decoding yields a lease if and only if the item is a map carrying its four attributes, whatever else it carries. |
| `Lease.RenewedLease` | crates/coordination/src/protocol.rs:321-337 | A renewal rewrites the expiry of a stored lease and nothing else. |
| `Lease.ClaimedLease` | crates/coordination/src/protocol.rs:386-393 | A takeover replaces all four attributes, whatever lease was stored. |
| `Lease.AcquireAnswers` | crates/coordination/src/protocol.rs:296-304 | On any store: with an item there, lease held and nothing written; otherwise the caller's lease at epoch 1, expiring a minute from now (saturating), is stored, and returned if its expiry is representable. |
| `Lease.RenewAnswers` | crates/coordination/src/protocol.rs:321-337 | A renewal by the stored holder under the stored epoch moves the expiry to a minute from now and nothing else; any other is told the lease is lost, or that there is none, with nothing written. |
| `Lease.ClaimAnswers` | crates/coordination/src/protocol.rs:361-406 | A claim on a held lease is refused, with nothing written, exactly while its expiry plus a minute (saturating) lies ahead; otherwise, below the last epoch, the caller's lease at the next epoch is stored. |
| `Lease.LeaseCoordinator.Acquire` | crates/coordination/src/protocol.rs:296-304 | Answer and store after an acquisition, which are those of `AcquireAnswers` on any store. |
| `Lease.LeaseCoordinator.Renew` | crates/coordination/src/protocol.rs:321-337 | Answer and store after a renewal, which are those of `RenewAnswers`. |
| `Lease.LeaseCoordinator.ReadLease` | crates/coordination/src/protocol.rs:276-282 | Answer of a read: the decoded item or the mapped error. |
| `Lease.LeaseCoordinator.ClaimLease` | crates/coordination/src/protocol.rs:361-406 | Answer and store after a claim run without interference, which are those of `ClaimAnswers` and of the three protocol steps. |
| `MemoryKv.CheckConditions` | crates/cloud-memory/src/replicated_kv.rs:62-92 | The loop accepts exactly when every condition holds of the stored value. |
| `MemoryKv.ApplyUpdateActions` | crates/cloud-memory/src/replicated_kv.rs:101-135 | The loop computes the ordered application of the actions, or fails if the item is no map or some increment finds no number or overflows. |
| `MemoryKv.MemoryReplicatedKv.Put` | crates/cloud-memory/src/replicated_kv.rs:161-172 | Whole new state and answer of a conditional put. |
| `MemoryKv.MemoryReplicatedKv.AtomicUpdate` | crates/cloud-memory/src/replicated_kv.rs:174-195 | Whole new state and answer; a missing item is reported before any condition is evaluated. |
| `MemoryKv.MemoryReplicatedKv.Transact` | crates/cloud-memory/src/replicated_kv.rs:204-262 | The two passes: all plans are made against the unchanged state, and written only when every one exists. |
| `MemoryKv.MemoryReplicatedKv.Query` | crates/cloud-memory/src/replicated_kv.rs:264-274 | Exactly the items under the prefix, in key order. |
| `ReplicatedKv.QueryResultUnique` | crates/cloud-types/src/replicated_kv.rs:339-352 | The promise of a query determines its answer: two backends that keep it return the same sequence. |
| `Transactions.AllOrNothing` | crates/cloud-memory/src/replicated_kv.rs:204-262 | For any operations, several on one key included: it fails exactly when some operation fails on the state before, and then changes nothing; otherwise each written key holds what its last write planned on that state, and keys only checked or not named are untouched. |
| `Transactions.SnapshotEqualsSequential` | crates/cloud-memory/src/replicated_kv.rs:204-262 | For distinct keys, the two-pass transaction equals performing the operations one after another, in verdict and store. |
| `Transactions.PermutationInvariant` | crates/cloud-memory/src/replicated_kv.rs:204-262 | For distinct keys, any rearrangement of the operations gives the same verdict and store. |
| `Transactions.SameKeyLosesAnIncrement` | crates/cloud-memory/src/replicated_kv.rs:204-262 | With one key twice it need not: two increments of one counter in a transaction count once. |
| `Transactions.ChecksWriteNothing` | crates/cloud-memory/src/replicated_kv.rs:239-258 | A key addressed only by condition checks keeps its value. |
| `IndexAllocation.CallConsumesItsRange` | crates/cloud-types/src/replicated_kv.rs:294-319 | A successful allocation moves the counter by exactly the range it grants; a failed one consumes nothing. |
| `IndexAllocation.RangesTileTheLog` | crates/cloud-memory/src/replicated_kv.rs:101-195 | Over any run in which only increments write the counter, the granted ranges follow each other from the initial to the current value. |
| `IndexAllocation.EveryIndexGrantedOnce` | crates/cloud-types/src/replicated_kv.rs:130-139 | Hence every index between is granted, and none twice. |
| `DynamoCodec.SplitRenderInverse` | crates/cloud-aws/src/ddb_replicated_kv.rs:255-275 | A key splits into a table key if and only if it is that table key rendered and both halves are legal. |
| `DynamoCodec.SplitInjective` | crates/cloud-aws/src/ddb_replicated_kv.rs:255-275 | Distinct accepted keys never share a row. |
| `DynamoCodec.DecodeEncodeValue` | crates/cloud-aws/src/ddb_replicated_kv.rs:283-323 | Values of any nesting survive encoding and decoding. |
| `DynamoCodec.EncodeInjective` | crates/cloud-aws/src/ddb_replicated_kv.rs:283-294 | Encoded values are equal exactly when the values are, so equality conditions mean the same on the wire. |
| `DynamoExpressions.ExprBuilder.AliasName` | crates/cloud-aws/src/ddb_replicated_kv.rs:397-403 | A minted name placeholder is fresh, bound to its name, and rebinds nothing. |
| `DynamoExpressions.ExprBuilder.AliasValue` | crates/cloud-aws/src/ddb_replicated_kv.rs:405-411 | A minted value placeholder is fresh, bound to its value, and rebinds nothing. |
| `DynamoExpressions.ExprBuilder.ValueAlias` | crates/cloud-aws/src/ddb_replicated_kv.rs:413-420 | The cached alias is always bound to the reserved attribute. |
| `DynamoExpressions.ExprBuilder.ValuePath` | crates/cloud-aws/src/ddb_replicated_kv.rs:426-434 | The path resolves to the attribute inside the reserved one, or to the reserved one for the empty name. |
| `DynamoExpressions.ConditionsClause` | crates/cloud-aws/src/ddb_replicated_kv.rs:458-492 | The clause resolves to the conjunction of the conditions, and exactly the placeholders it mentions were added. |
| `DynamoExpressions.UpdateClauses` | crates/cloud-aws/src/ddb_replicated_kv.rs:501-546 | The update expression and its guards resolve to what the actions mean; an empty list touches the marker attribute. |
| `DynamoExpressions.UpdateConditionExpression` | crates/cloud-aws/src/ddb_replicated_kv.rs:554-575 | The condition resolves to: the item exists, the caller's conditions hold, and every increment finds a number. |
| `DynamoKv.BuildRequest` | crates/cloud-aws/src/ddb_replicated_kv.rs:792-891 | Placeholder soundness of whole requests: resolving gives back exactly what the operation means, and no placeholder is unbound, rebound or unused, nor any map explicitly empty. |
| `DynamoKv.DynamoDbReplicatedKv.Put` | crates/cloud-aws/src/ddb_replicated_kv.rs:600-627 | State and answer of sending the compiled request. |
| `DynamoKv.DynamoDbReplicatedKv.AtomicUpdate` | crates/cloud-aws/src/ddb_replicated_kv.rs:629-680 | State and answer of the compiled update, with a lost condition classified by a follow-up read. |
| `DynamoKv.DynamoDbReplicatedKv.Transact` | crates/cloud-aws/src/ddb_replicated_kv.rs:682-694 | State and answer of the compiled transaction; one unsplittable key refuses it before anything is sent. |
| `DynamoRuns.RunsAgree` | crates/cloud-aws/src/ddb_replicated_kv.rs:458-566 | Over every run of gets, puts, updates, transactions and queries in the fragment the DynamoDB backend and the in-memory one give the same replies, errors included, and end in related states. |
| `DynamoSimulation.PutAgrees` | crates/cloud-aws/src/ddb_replicated_kv.rs:600-627 | One put on both backends. |
| `DynamoSimulation.UpdateAgrees` | crates/cloud-aws/src/ddb_replicated_kv.rs:629-680 | One update on both backends, with ordered actions on one side and sectioned ones on the other. |
| `DynamoSimulation.UpdateDiffersIff` | crates/cloud-aws/src/ddb_replicated_kv.rs:98-110 | The answers differ if and only if an update that passes all conditions leaves the 64-bit range; then the reference refuses and the table is left undecodable. |
| `DynamoSimulation.TransactAgrees` | crates/cloud-aws/src/ddb_replicated_kv.rs:682-694 | One transaction on both backends, no sum out of range. |
| `DynamoSimulation.TransactDiffersIff` | crates/cloud-aws/src/ddb_replicated_kv.rs:98-110 | For transactions on distinct keys the answers differ if and only if every operation passes its conditions and guards and some update overflows; then the reference refuses and writes nothing, the service commits, the overflowing keys no longer decode, every other operation has taken effect and other keys are untouched. |
| `DynamoSimulation.SectionsEqualOrder` | crates/cloud-aws/src/ddb_replicated_kv.rs:501-546 | Actions applied in order and actions applied by section leave the same attributes, for distinct attributes and sums in range. |
| `DynamoSimulation.UpdateConditionAgrees` | crates/cloud-aws/src/ddb_replicated_kv.rs:554-575 | The compiled condition holds of a row exactly when the reference would pass conditions and increment guards. |
| `DynamoSimulation.PathsDisjoint` | crates/cloud-aws/src/ddb_replicated_kv.rs:501-546 | No two paths of a compiled update overlap, so the service never rejects it for that. |
| `DynamoQuery.SelectsExactly` | crates/cloud-aws/src/ddb_replicated_kv.rs:79-96 | Over accepted keys, the partition split and the scan filter select exactly the keys under the prefix. |
| `DynamoQuery.LeadingSlashMatchesNothing` | crates/cloud-aws/src/ddb_replicated_kv.rs:696-707 | A prefix pins the empty partition exactly when it starts with a slash, and then no stored key matches. |
| `DynamoQuery.DecodePage` | crates/cloud-aws/src/ddb_replicated_kv.rs:745-747 | Rows are decoded in order; the first that does not decode fails the page. |
| `DynamoQuery.QueryWithinPartition` | crates/cloud-aws/src/ddb_replicated_kv.rs:713-753 | Draining the pages decodes the matching rows of the partition as if they came at once, however the service cuts them; an empty partition key is refused. |
| `DynamoQuery.Scan` | crates/cloud-aws/src/ddb_replicated_kv.rs:760-788 | The same for the filtered and the full scan. |
| `DynamoQuery.Query` | crates/cloud-aws/src/ddb_replicated_kv.rs:696-707 | On any table, decodable or not: the sorted decoding of the matching rows, independent of the page cuts. |
| `DynamoQuery.QueryAgrees` | crates/cloud-aws/src/ddb_replicated_kv.rs:696-707 | On a table that represents a store, whatever the order of its rows: the reference answer, unless the prefix starts with a slash. |
| `LeaseOnDynamo.LeaseKeysAccepted` | crates/coordination/src/protocol.rs:56-61 | Every lease key is splittable and no two logs share one. |
| `LeaseOnDynamo.RequestsInFragment` | crates/coordination/src/protocol.rs:296-406 | In every reachable state each request the protocol issues lies in the fragment on which the backends agree. |
| `LeaseOnDynamo.ProtocolRunsAgree` | crates/coordination/src/protocol.rs:296-406 | Along every interleaving the DynamoDB table answers the protocol's requests as the reference does and keeps representing its store, so the safety results hold on both. |
| `LeaseOnDynamo.LeaseRowDecodes` | crates/coordination/src/protocol.rs:276-282 | At the end of any such run the lease row decodes to the lease last written. |
| `FakeClock.Linearizable` | crates/clock/src/fake.rs:86-145 | For any number of threads and any interleaving of loads, exchanges and notifications, the clock reads as if the successful operations had run one after another, time never goes backward, an attempt that does not move it has no effect, and a refused set reported a later value the clock had during the call. |
| `FakeClock.LeftAloneFinishes` | crates/clock/src/fake.rs:133-145 | From any reachable state a call that is left alone completes after one read and two attempts, with its sequential effect on the value shown or refused by it. |
| `FakeClock.EveryNanosecondCounts` | crates/clock/src/fake.rs:81-91 | When only advances ran and all have landed, the clock shows the start plus every nanosecond the callers asked for, for durations of any length, capped once, in any interleaving. |
| `FakeClock.RetryMeansProgress` | crates/clock/src/fake.rs:133-145 | An attempt that must retry was overtaken by a completed move: some thread always makes progress. |
| `FakeClock.NoLostWakeup` | crates/clock/src/tokio.rs:104-118 | In every interleaving a parked sleeper whose deadline has been reached has an unseen notification or some thread still owes one; and no sleeper finishes early. |
| `FakeClock.ReachedSleeperFinishes` | crates/clock/src/tokio.rs:104-118 | Once all notifications are out, a sleeper whose deadline has been reached finishes within two of its own steps. |
| `FakeClock.AdvancesCompose` | crates/clock/src/fake.rs:81-85 | Advances compose to one saturating addition, so their order is irrelevant. |
| `FakeClock.ClampIsNearest` | crates/clock/src/fake.rs:180-183 | An instant is shown as the nearest representable one, unchanged when it is representable. |
| `FakeClock.FakeClock.AdvanceClock` | crates/clock/src/fake.rs:86-91 | The loop, under any interference by other threads, lands exactly one advance after what landed before it: the clock then shows what they left plus the whole duration asked for, capped once; and it notifies once. |
| `FakeClock.FakeClock.Set` | crates/clock/src/fake.rs:107-128 | The loop either lands the instant (clamped) and notifies, or changes nothing and reports a value beyond it; alone, exactly when the clock is. |
| `Interval.SleepUntil` | crates/clock/src/tokio.rs:104-118 | The loop ends at the first reading that has reached the deadline, and only there. |
| `Interval.Ticker.Tick` | crates/clock/src/tokio.rs:171-181 | One tick completes at its scheduled instant and advances the schedule, or changes nothing while waiting; an overflowed schedule never ticks. |
| `Interval.BurstCatchesUp` | crates/clock/src/tokio.rs:129-137 | After a jump of the clock the missed ticks fire back to back for as many calls as are made, each at first + i periods, none skipped and none early, until the schedule lies beyond the clock; a zero period ticks on every call. |
| `ObjectLock.RetentionSafety` | crates/cloud-memory/src/object_lock.rs:26-91 | Once a retained put has succeeded, every later state whose time is before the retention instant holds exactly its bytes with at least its retention, whatever calls were attempted. |
| `ObjectLock.ReleaseNeedsExpiry` | crates/cloud-memory/src/object_store.rs:81-171 | A locked object is released only by an overwrite or delete of its key that read the clock at or after the retention instant, even if clocks misbehave. |
| `ObjectLock.RejectionBoundary` | crates/cloud-memory/src/object_store.rs:81-95 | Delete and overwrite are accepted precisely from the retention instant on; creation never; extension exactly when it lengthens. |
| `ObjectLock.AppendOnly` | crates/cloud-memory/src/object_store.rs:98-126 | Without deletes and overwrites of its key an object keeps its bytes and time, retained or not. |
| `ObjectLock.ExtendOnlyExtends` | crates/cloud-memory/src/object_lock.rs:53-78 | An extension lengthens one retention and touches nothing else. |
| `ObjectLock.OverwriteDropsRetention` | crates/cloud-memory/src/object_store.rs:110-124 | After expiry an overwrite leaves an object without any retention, which nothing can extend. |
| `ObjectLock.RefusedIff` | crates/cloud-memory/src/object_store.rs:81-171 | When a call is refused and with which error, for all four calls; a refused call changes nothing. |
| `ObjectLock.AcceptedLeaves` | crates/cloud-memory/src/object_store.rs:98-171 | An accepted put, of either interface and mode and whatever was there, leaves exactly its bytes, its time and its retention, and every other key as it was; an accepted delete leaves nothing. |
| `ObjectLock.ReadYourWrites` | crates/cloud-memory/src/object_store.rs:98-171 | Over any run of attempted calls a reader gets the bytes and time of the last accepted put of the key, nothing after an accepted delete, and otherwise what was there at the start. |
| `ObjectLock.MemoryObjectStore.PutObject` | crates/cloud-memory/src/object_store.rs:98-126 | New state and answer of a put in both modes. |
| `ObjectLock.MemoryObjectStore.DeleteObject` | crates/cloud-memory/src/object_store.rs:162-171 | New state and answer of a delete. |
| `ObjectLock.MemoryObjectStore.PutRetained` | crates/cloud-memory/src/object_lock.rs:26-51 | New state and answer of a create-only retained put. |
| `ObjectLock.MemoryObjectStore.Extend` | crates/cloud-memory/src/object_lock.rs:53-78 | New state and answer of a forward-only extension. |
| `LagScheduler.Conservation` | crates/dev-replicator/src/lag.rs:110-157 | Over every run of discoveries, drains and policy changes: accepted items are the drained ones in order followed by the pending ones, no key occurs twice, pending keys are disjoint from the applied set, and that set is the drained keys and never shrinks. |
| `LagScheduler.AcceptsFirstOfEachKey` | crates/dev-replicator/src/lag.rs:121-134 | What is accepted is exactly the first discovery of every key, whatever drains and policy changes happen in between. |
| `LagScheduler.ReplayIsIdempotent` | crates/dev-replicator/src/lag.rs:14-20 | Replaying discoveries already made queues nothing. |
| `LagScheduler.DrainIsExactIff` | crates/dev-replicator/src/lag.rs:142-157 | A drain releases exactly the due items if and only if no due item waits behind one that is not due. |
| `LagScheduler.DrainsExactly` | crates/dev-replicator/src/lag.rs:142-157 | In every run with nondecreasing discovery times the next drain releases an item if and only if its discovery time plus the lag is not after now (or the lag is zero), in order, and keeps the others. |
| `LagScheduler.EverythingLeaves` | crates/dev-replicator/src/lag.rs:142-157 | Once the lag has passed for everything pending, in whatever order it was discovered, one drain empties the queue and all that was ever accepted has been applied. |
| `LagScheduler.CatchUpBurst` | crates/dev-replicator/src/lag.rs:21-29 | Nothing leaves during a stall; when it ends one drain releases the longest due prefix in discovery order, which is everything queued if and only if the new lag is zero or has passed since every discovery. |
| `LagScheduler.YoungItemOutlivesTheStall` | crates/dev-replicator/src/lag.rs:21-29 | A run in which an item queued during a stall is not released by the first drain after it. |
| `LagScheduler.DueItemStaysBehind` | crates/dev-replicator/src/lag.rs:136-157 | A run with discovery times going backward in which an item as old as the lag stays queued. |
| `LagScheduler.DrainedNeverRequeued` | crates/dev-replicator/src/lag.rs:121-134 | What has been drained is not queued again in any continuation. |
| `LagScheduler.LagScheduler.DiscoverChange` | crates/dev-replicator/src/lag.rs:121-134 | Queues an item exactly when its key is neither pending nor applied. |
| `LagScheduler.LagScheduler.DrainDue` | crates/dev-replicator/src/lag.rs:142-157 | The loop pops items while discovery time plus lag is not after now, stops at the first for which it is, and marks the popped ones applied; a stalled queue pops nothing. |
| `LastWriterWins.PresentIff` | crates/dev-replicator/src/ddb.rs:264-323 | Over any upserts and removals in any order a key is there at the end if and only if its initial row is as new as every removal, or some upsert is as new as every removal after it. |
| `LastWriterWins.NewestWinsIff` | crates/dev-replicator/src/ddb.rs:10-35 | Last writer wins, exactly: the final state of a key is the one its newest write promises, unless that write is a removal and some upsert is as new as every removal after it. |
| `LastWriterWins.OrderMattersIff` | crates/dev-replicator/src/ddb.rs:10-35 | With distinct timestamps per key, the order of arrival changes the final table if and only if some key has an upsert beside a removal that is its newest write. |
| `LastWriterWins.ArrivalOrderIrrelevant` | crates/dev-replicator/src/ddb.rs:10-35 | Without such a key any two orders of the same writes, repeated or not, leave the same table. |
| `LastWriterWins.RemovalCommutesIff` | crates/dev-replicator/src/ddb.rs:298-323 | An upsert and a removal of one key commute exactly when the removal is no newer than the upsert or than the row already there. |
| `LastWriterWins.ReplayIsStale` | crates/dev-replicator/src/ddb.rs:23-28 | Replaying an upsert changes nothing and is refused. |
| `LastWriterWins.FirstOfAPassWins` | crates/dev-replicator/src/ddb.rs:241-260 | All changes of a pass share one timestamp, so the first upsert of a key shuts out every later change of it in that pass, removals included. |
| `LastWriterWins.MillisFloors` | crates/dev-replicator/src/ddb.rs:325-334 | Timestamps are whole milliseconds, rounded down; instants before the epoch count as zero. |
| `LastWriterWins.PassCounts` | crates/dev-replicator/src/ddb.rs:241-260 | Each counter is the number of due changes with that outcome: applied where the condition held when the call was answered, stale where it did not, failed where it was not answered; together they are all due changes. |
| `Fingerprint.RowPrintDetermines` | crates/dev-replicator/src/ddb.rs:345-348 | Equal fingerprints mean equal contents, whatever the iteration orders. |
| `Fingerprint.RowPrintUnique` | crates/dev-replicator/src/ddb.rs:345-348 | A row without a nested map of two or more entries has one fingerprint. |
| `Fingerprint.TwoRowPrints` | crates/dev-replicator/src/ddb.rs:345-348 | Any other row has two. |
| `DdbReplicator.QueuesFirstTimeOnly` | crates/dev-replicator/src/ddb.rs:183-235 | Over any scans, with any drains and lag changes in between, a fingerprint is queued the first time it is shown at a key, and a disappearance the first time the key disappears, and never again: what can still be queued is exactly what no scan has shown. |
| `DdbReplicator.EveryContentQueued` | crates/dev-replicator/src/ddb.rs:183-235 | Every content that a scan shows is queued, whatever fingerprint it was shown with. |
| `DdbReplicator.QueuedOnceIff` | crates/dev-replicator/src/ddb.rs:342-348 | A content is queued exactly once in every run that shows it if and only if it holds no nested map of two or more entries at any depth. |
| `DdbReplicator.NestedMapQueuedTwice` | crates/dev-replicator/src/ddb.rs:342-348 | A row with a two-entry map, unchanged over two scans, is queued twice. |
| `DdbReplicator.LeaseRowsRepeat` | crates/dev-replicator/src/ddb.rs:342-348 | Every lease row is of that kind. |
| `DdbReplicator.RemovalInOnePassIsLost` | crates/dev-replicator/src/ddb.rs:226-260 | A key upserted and then removed, both drained in one pass: the row stays on the target and the removal is never queued again. |
| `DdbReplicator.DiscoverAllIsRun` | crates/dev-replicator/src/ddb.rs:183-235 | What the poller offers in one scan is a run of the scheduler. |
| `DdbReplicator.LeavesWhenLagHasPassed` | crates/dev-replicator/src/ddb.rs:183-260 | While the clock does not go backward between scans, and whatever drains and lag changes came before, a queued change leaves with the next drain if and only if the lag has passed since the first scan that showed it. |
| `DdbReplicator.DdbPoller.Discover` | crates/dev-replicator/src/ddb.rs:183-235 | One scan offers its rows in order, each under the fingerprint it printed, and then each vanished key once, and remembers the keys it saw. |
| `DdbReplicator.DdbPoller.ApplyDue` | crates/dev-replicator/src/ddb.rs:241-260 | Drains what is due and applies it under one timestamp, counting each outcome. |
| `ReplicaRuns.NextScanQueuesIff` | crates/dev-replicator/src/ddb.rs:183-235 | A change offered by the next scan is queued if and only if no earlier scan showed that fingerprint at the key; a removal, if and only if the key never disappeared before. |
| `ReplicaRuns.RoundMirrorsIff` | crates/dev-replicator/src/ddb.rs:183-260 | A target that held exactly the rows of the source does so after the next scan and pass if and only if no change between the scans looks like one seen before. |
| `ReplicaRuns.ReplicatesIff` | crates/dev-replicator/src/ddb.rs:78-86 | With no lag, no failing call and ever later passes, the target follows the source through every round if and only if no change of the source repeats a fingerprint, or a disappearance, of an earlier scan. |
| `ReplicaRuns.HistoryDecides` | crates/dev-replicator/src/ddb.rs:78-86 | For any history of one row, changes, deletions and returns in any order: the target holds what the changes made for the first time left, and nothing made once is queued again in any continuation. |
| `ReplicaRuns.RecreatedRowIsLost` | crates/dev-replicator/src/ddb.rs:78-86 | A row deleted and created again as it was is missing on the target, and neither it nor its next disappearance is ever queued again. |
| `ReplicaRuns.RowChangedBackIsLost` | crates/dev-replicator/src/ddb.rs:78-86 | A row changed and changed back: the target keeps the change. |
| `ReplicaRuns.SecondRemovalIsLost` | crates/dev-replicator/src/ddb.rs:226-229 | A key that disappears a second time keeps its row on the target. |
| `CheckpointFraming.FrameSignedCheckpoint` | crates/checkpoint-signer/src/framing.rs:128-155 | Framing fails exactly when the identifier is not 1 to 255 bytes or the signature exceeds 65535, in that order of checks and with the actual lengths; otherwise it appends the layout. |
| `CheckpointFraming.ParseIffFrame` | crates/mtc/src/checkpoint/mod.rs:276-344 | Bytes parse to a checkpoint and signature if and only if they are its frame: every field comes back, every byte is consumed, the identifier is non-empty UTF-8, and the encoding is unique. |
| `CheckpointFraming.ReadIffSignatureInput` | crates/mtc/src/checkpoint/signature_input.rs:162-196 | Bytes are the signature input of a checkpoint if and only if a reader of the documented layout (label text, two identifiers, two 64-bit bounds, hash, end) reads the log twice, zero, the tree size and the root. |
| `CheckpointFraming.SignatureInputBinds` | crates/mtc/src/checkpoint/signature_input.rs:162-196 | Signed bytes are equal exactly when log, size and root are; the time is not covered. |
| `CheckpointFraming.KeyInjective` | crates/checkpoint-signer/src/framing.rs:54-56 | No two tree sizes share an object key. |
| `CheckpointFraming.KeyOrder` | crates/checkpoint-signer/src/framing.rs:54-56 | Below ten to the sixteenth keys sort as sizes do. |
| `CheckpointFraming.KeyOrderExactly` | crates/checkpoint-signer/src/framing.rs:54-56 | For any two sizes, exactly how their keys compare. |
| `CheckpointFraming.KeyOrderBreaks` | crates/checkpoint-signer/src/framing.rs:54-56 | At ten to the sixteenth the larger size sorts first. |
| `CheckpointSigner.BackoffIsExact` | crates/checkpoint-signer/src/retry.rs:55-63 | The delay is the exact product under the two caps; 128-bit saturation never shows. |
| `CheckpointSigner.NarrowingShowsIff` | crates/checkpoint-signer/src/retry.rs:59-62 | The narrowing to 64 bits shows at some index if and only if the cap exceeds 64 bits and the base is at least two nanoseconds. |
| `CheckpointSigner.CapReachedIff` | crates/checkpoint-signer/src/retry.rs:51-53 | From index 63 on the delay is the cap if and only if the cap is zero, the base is at least two, or the base is one and the cap at most 2^63. |
| `CheckpointSigner.CapsThatShow` | crates/checkpoint-signer/src/retry.rs:51-62 | A policy whose delay is cut short by the narrowing, and one whose index 64 has not reached the cap. |
| `CheckpointSigner.BackoffGrows` | crates/checkpoint-signer/src/retry.rs:46-63 | Delays never shrink, never exceed the cap, and are constant from index 63 on. |
| `CheckpointSigner.BackoffDoubles` | crates/checkpoint-signer/src/retry.rs:46-63 | Until a cap is reached each delay is twice the one before. |
| `CheckpointSigner.SignWithRetry` | crates/checkpoint-signer/src/signer.rs:101-128 | Against any answer sequence the loop terminates, ends on the first answer that is not transient or on the last the budget allows, and sleeps once, for the scheduled delay, before each further call. |
| `CheckpointSigner.SucceedsIff` | crates/checkpoint-signer/src/signer.rs:101-128 | Signing succeeds if and only if the first answer that is not transient is a signature within the budget; the reported attempts are exact unless 2^32 calls were made. |
| `CheckpointSigner.TerminalSurfaces` | crates/checkpoint-signer/src/signer.rs:107-125 | A terminal error is reported after one call. |
| `CheckpointSigner.SignCheckpoint` | crates/checkpoint-signer/src/signer.rs:65-96 | The HSM is asked only for a legal identifier, and then to sign bytes that read as the log twice, the range from zero to the tree size, and the root; a 64-byte answer gives an object that parses back to the checkpoint and that answer under the key of its size, and every other ending gives its own error. |
| `Acme.EveryAcceptIsPaid` | crates/acme-core/src/routes.rs:152-257 | Over every interleaving of requests each accepted one is paid for by its own issue of the nonce, in time; identifiers and thumbprints stay in bijection; and every account holds the key, contacts and terms of an accepted request that its own key signed. |
| `Acme.UnspentIsAcceptedIff` | crates/acme-core/src/nonce.rs:75-98 | A nonce that was handed out, that nobody has spent and that was not issued again is accepted if and only if it is presented no later than one lifetime after its issue, and its request is then admitted. |
| `Acme.AcceptsBoundedByIssues` | crates/acme-core/src/nonce.rs:75-98 | A nonce value is accepted at most as often as it was issued, strictly less often while outstanding. |
| `Acme.OutstandingAreRecent` | crates/acme-core/src/nonce.rs:75-84 | Right after each attempt to issue a nonce every stored one can still be spent and was last issued within one lifetime before. |
| `Acme.ReplayRefused` | crates/acme-core/src/nonce.rs:86-98 | A replay is refused and changes nothing until the same value happens to be issued again. |
| `Acme.AccountsArePermanent` | crates/acme-core/src/account.rs:103-127 | Along any run accounts never change or disappear. |
| `Acme.LookupsAgree` | crates/acme-core/src/account.rs:90-101 | Lookups by identifier and by thumbprint agree, and identifiers are exactly those handed out. |
| `Acme.GetOrCreateKeeps` | crates/acme-core/src/account.rs:109-127 | Creation uses a fresh larger identifier, stores what was asked for and keeps the bijection; registering again changes nothing and returns the account as it was. |
| `Acme.HandlerIsTwoSteps` | crates/acme-core/src/routes.rs:218-257 | A handler run on its own leaves what an admission followed by a finish leaves, and accounts only change when a nonce was accepted. |
| `Acme.HandlerRefuses` | crates/acme-core/src/routes.rs:218-257 | The answer to a refused request is the error of the first of twelve ordered checks that fails; accounts stay as they were, and the nonce is spent exactly when its check was reached. |
| `Acme.HandlerGrants` | crates/acme-core/src/routes.rs:218-257 | When every check passes the answer is the account of the key, created with what was asked for if there was none, and no other account moves. |
| `Acme.NonceStore.Issue` | crates/acme-core/src/nonce.rs:75-84 | Prunes, then registers the value until its deadline; nothing expired remains. |
| `Acme.NonceStore.Consume` | crates/acme-core/src/nonce.rs:91-98 | Removes the nonce whatever happens and accepts it up to and including its deadline. |
| `Acme.AccountStore.Register` | crates/acme-core/src/account.rs:109-127 | New contents and answer, keeping the bijection. |
| `Acme.AcmeServer.NewAccount` | crates/acme-core/src/routes.rs:218-257 | State and answer of the handler, which are those of `HandlerRefuses` and `HandlerGrants`. |
| `Acme.AcmeServer.Respond` | crates/acme-core/src/routes.rs:152-169 | Stores and reply are the handler's, with a fresh nonce that can be spent stamped on; only a failing random source replaces the reply by a server error. |
| `Hex.Encode` | crates/conformance/src/hex.rs:14-22 | The loop writes two lowercase digits per byte. |
| `Hex.Decode` | crates/conformance/src/hex.rs:31-45 | Odd length first, then the first invalid digit with its offset, otherwise the bytes denoted. |
| `Hex.SameNumber` | crates/conformance/src/hex.rs:14-59 | A text and the bytes it decodes to write the same number, in base sixteen and base 256, most significant first. |
| `Hex.DigitWorth` | crates/conformance/src/hex.rs:47-59 | A digit is worth its place in the alphabet 0 to f, in either case. |
| `Hex.RoundTrip` | crates/conformance/src/hex.rs:14-59 | Decoding an encoded text gives the bytes back and nothing else. |
| `Hex.DecodedEncodesLower` | crates/conformance/src/hex.rs:14-59 | Encoding a decoded text gives the text in lower case. |

## Left out

- The text of DynamoDB expressions: requests are modelled as syntax trees, so rendering them to strings and the service's parsing of them are not covered.
- Service limits: request and item sizes, the number of operations per transaction, number precision, throttling, and the 32-bit placeholder counter.
- Weak consistency: the model reads the current table, whereas scans are not requested to be strongly consistent and replicas in other regions lag behind.
- The error label of a failed DynamoDB update when another writer runs before the follow-up read: the simulation is of sequential calls, and only the label can differ.
- Updates outside the fragment: an empty attribute name, an attribute named twice, a scalar item. A query prefix that starts with a slash is refused by one backend and answered with nothing by the other, which `DynamoQuery.QueryAgrees` states.
- The reasons inside error values, and the classification of SDK errors other than a failed condition.
- FakeClock.FakeClock.AdvanceClock: what other threads do between two steps is an arbitrary finite list; a loop overtaken for ever does not terminate in the source either, and `RetryMeansProgress` says that then others keep succeeding.
- The real-time clock and the async runtime: a sleeper's wake-up is enabled by the model, that it is eventually run is the runtime's promise.
- `list` of the object store, whose answer has the shape of `MemoryKv.MemoryReplicatedKv.Query`, and the S3 store, whose behaviour is S3's own versioning.
- Replication under lag and failing calls as a whole: `ReplicaRuns` has neither, and its passes have ever later timestamps; what lag does to the queue and what shared or unordered timestamps do to the target is proved in `LagScheduler`, `DdbReplicator` and `LastWriterWins`. Failed changes are counted and not retried.
- DdbReplicator.DdbPoller.Discover: a fingerprint is modelled by the structure its debug text shows, with an arbitrary order for every nested map; pages are already joined and scan errors are not modelled.
- Timestamps of another type in target rows, and the S3 side of the replicator.
- Signature schemes, thumbprints, base64 and JSON: opaque values or verdicts of checks.
- Acme.AccountStore.Register: identifiers are unbounded, so the overflow of the 64-bit counter is not modelled.
- Overflow of clock arithmetic when a nonce deadline leaves the range of the platform's time type.
- Merkle trees, proofs, the batch builder, configuration, metrics, administration API and deployment code.
