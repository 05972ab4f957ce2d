# Global table mockup: the control core in Dafny

GlobalTableMockup layers multi-region replication over per-region copies of one key-value
table. This project models its control core and proves properties of the model.

- **Version vectors.** A version vector counts the writes each region has made to an item. A
  vector dominates another when it has seen every write the other has seen.
- **Conflict resolution.** Two copies conflict when neither version dominates the other. A
  conflict is settled in favour of the master region's copy, and otherwise by the later
  timestamp.
- **The mastership lease.** It records an owner and an expiration, plus an optional pending
  transition to a next owner. It is acquired, renewed, released and taken over under
  predicates that allow for a bounded clock skew between regions.
- **The replication engine.** It pulls, for one (target, source) pair of replicas, the writes
  that originated at the source after the pair's watermark. It writes each into the target
  unless it loses a conflict there, then advances the watermark. On first use of a table the
  watermarks are bootstrapped by scanning every replica.
- **The global request router.** It sends eventually consistent requests to the local replica
  and strongly consistent ones to the master replica. It caches the master and refreshes it
  when the lease may have expired. It stamps every write with the writing region, the time
  and the stored version bumped at that region.

Modules, one per file:

| file | module | contents |
|---|---|---|
| `types.dfy` | `Types` | region, key and table names; `Option` for Java's `null` |
| `versions.dfy` | `Versions` | the value semantics of a vector (`map<Region, nat>`) and its algebra |
| `version_vector.dfy` | `VersionVectors` | the mutable `VersionVector` class, proved against `Versions` |
| `items.dfy` | `Items` | items: user attributes plus origin, timestamp and version; attribute updates |
| `conflict_resolver.dfy` | `ConflictResolver` | `IsConflict`, `IsWinner` and their properties |
| `lease.dfy` | `Leases` | lease transitions as pure functions, and the `Lease` class proved against them |
| `item_store.dfy` | `Store` | a stand-in for the per-region item store: one `map<Key, Item>` per (table, region) |
| `metadata.dfy` | `Metadata` | a stand-in for the metadata service: master, replica set and lease per table |
| `replication.dfy` | `Replication` | the specification of a pull: bootstrap, pass, watermarks, and lemmas about them |
| `replication_engine.dfy` | `Engine` | the `ReplicationEngine` class, each method proved against `Replication` |
| `router.dfy` | `Router` | the `GlobalRequestRouter` class, version stamping, and a scenario of two puts |

The clock is an explicit `now: int` parameter. Regions are compared by name.

Where the comments of `Lease.java` and its code differ, the model follows the code.
`Lease.java:102` and `:119` speak of extending the lease. A renewal by the owner sets the
expiration to `now` plus the lease duration (`Lease.java:120`); it does not add the duration
to the old expiration. `Leases.LeaseState.Renew` does the same.

## Model

| member | source | states |
|---|---|---|
| Versions.Single | GlobalTableMockup/src/main/java/com/amazonaws/globaltables/VersionVector.java:23-26 | the vector of a first write counts 1 at the writing region and 0 everywhere else |
| Versions.Bump | GlobalTableMockup/src/main/java/com/amazonaws/globaltables/VersionVector.java:52-63 | bumping raises the region's count by exactly 1, leaves every other region's count alone, and adds only that region as a key |
| Versions.DominatesPointwise | GlobalTableMockup/src/main/java/com/amazonaws/globaltables/VersionVector.java:65-75 | domination, which checks only the other vector's keys, is equivalent to a count-by-count ≤ over all regions |
| Versions.DominatesReflexive | GlobalTableMockup/src/main/java/com/amazonaws/globaltables/VersionVector.java:65-75 | every vector dominates itself |
| Versions.DominatesTransitive | GlobalTableMockup/src/main/java/com/amazonaws/globaltables/VersionVector.java:65-75 | domination is transitive |
| Versions.EmptyIsDominated | GlobalTableMockup/src/main/java/com/amazonaws/globaltables/VersionVector.java:65-75 | every vector dominates the empty vector |
| Versions.BumpSupersedes | GlobalTableMockup/src/main/java/com/amazonaws/globaltables/VersionVector.java:52-75 | a bumped vector dominates the vector it came from, and is not dominated by it |
| Versions.SameCountsSameDominance | GlobalTableMockup/src/main/java/com/amazonaws/globaltables/VersionVector.java:28-42 | vectors with equal counts at every region dominate, and are dominated by, the same vectors |
| VersionVectors.VersionVector.Empty | GlobalTableMockup/src/main/java/com/amazonaws/globaltables/VersionVector.java:19-21 | a new vector is empty, and every region counts 0 |
| VersionVectors.VersionVector.Single | GlobalTableMockup/src/main/java/com/amazonaws/globaltables/VersionVector.java:23-26 | a vector for a replica counts 1 there and 0 everywhere else |
| VersionVectors.VersionVector.Count | GlobalTableMockup/src/main/java/com/amazonaws/globaltables/VersionVector.java:28-42 | a region without an entry counts 0; otherwise the stored count |
| VersionVectors.VersionVector.Bump | GlobalTableMockup/src/main/java/com/amazonaws/globaltables/VersionVector.java:52-63 | the bump happens in place and returns the same object; the new vector is `Versions.Bump` of the old one |
| VersionVectors.VersionVector.Dominates | GlobalTableMockup/src/main/java/com/amazonaws/globaltables/VersionVector.java:65-75 | the loop with its early exit returns exactly `Versions.Dominates` of the two vectors |
| VersionVectors.VersionVector.ToMap | GlobalTableMockup/src/main/java/com/amazonaws/globaltables/VersionVector.java:77-79 | the returned map gives every region the count the vector gives it |
| VersionVectors.VersionVector.FromMap | GlobalTableMockup/src/main/java/com/amazonaws/globaltables/VersionVector.java:81-84 | the vector is replaced by the given map, and the same object is returned |
| VersionVectors.RoundTrip | GlobalTableMockup/src/main/java/com/amazonaws/globaltables/VersionVector.java:77-84 | a copy made through `toMap`/`fromMap` has the same counts, and compares under domination exactly like the original, in both directions |
| ConflictResolver.NoConflictWithAbsent | GlobalTableMockup/src/main/java/com/amazonaws/globaltables/ConflictResolver.java:16-18 | no conflict when either copy is absent |
| ConflictResolver.ConflictSymmetric | GlobalTableMockup/src/main/java/com/amazonaws/globaltables/ConflictResolver.java:14-25 | conflict is symmetric |
| ConflictResolver.IsConflict | GlobalTableMockup/src/main/java/com/amazonaws/globaltables/ConflictResolver.java:14-25 | conflicting copies are both present and carry different versions |
| ConflictResolver.IsWinner | GlobalTableMockup/src/main/java/com/amazonaws/globaltables/ConflictResolver.java:30-51 | a winner is never strictly superseded by the loser; the master's copy wins whenever the other copy does not strictly supersede it |
| ConflictResolver.ConflictIffEachAhead | GlobalTableMockup/src/main/java/com/amazonaws/globaltables/ConflictResolver.java:19-24 | present copies conflict exactly when each has counted, at some region, more writes than the other |
| ConflictResolver.NoConflictWhenDominated | GlobalTableMockup/src/main/java/com/amazonaws/globaltables/ConflictResolver.java:21-23 | no conflict when either version dominates the other, in particular when the versions are equal |
| ConflictResolver.WinsWhenDominating | GlobalTableMockup/src/main/java/com/amazonaws/globaltables/ConflictResolver.java:39-40 | a copy whose version dominates the other's wins |
| ConflictResolver.EqualVersionsBothWin | GlobalTableMockup/src/main/java/com/amazonaws/globaltables/ConflictResolver.java:39-40 | with equal versions, each copy wins against the other |
| ConflictResolver.LosesWhenStrictlyDominated | GlobalTableMockup/src/main/java/com/amazonaws/globaltables/ConflictResolver.java:41-42 | a copy whose version is strictly dominated loses |
| ConflictResolver.MasterCopyWins | GlobalTableMockup/src/main/java/com/amazonaws/globaltables/ConflictResolver.java:43-46 | of two concurrent copies, the one from the master wins in both argument orders |
| ConflictResolver.BothMasterCopiesWin | GlobalTableMockup/src/main/java/com/amazonaws/globaltables/ConflictResolver.java:43-44 | concurrent copies that both came from the master each win |
| ConflictResolver.LaterTimestampWins | GlobalTableMockup/src/main/java/com/amazonaws/globaltables/ConflictResolver.java:47-48 | away from the master, with distinct timestamps exactly one of two concurrent copies wins: the later one |
| ConflictResolver.EqualTimestampsBothLose | GlobalTableMockup/src/main/java/com/amazonaws/globaltables/ConflictResolver.java:47-48 | away from the master, concurrent copies with equal timestamps both lose |
| ConflictResolver.SomeCopyWins | GlobalTableMockup/src/main/java/com/amazonaws/globaltables/ConflictResolver.java:30-51 | of two copies at least one wins, except for concurrent copies written away from the master with equal timestamps |
| ConflictResolver.ConflictUsesTieBreak | GlobalTableMockup/src/main/java/com/amazonaws/globaltables/ConflictResolver.java:39-48 | when copies conflict, the winner is decided by the tie-break alone: the master's copy, else the later timestamp |
| Items.StampedAfterUpdates | GlobalTableMockup/src/main/java/com/amazonaws/globaltables/GlobalRequestRouter.java:155-161 | whatever the client's updates do, once the system updates are appended the item carries the stamped origin, timestamp and version, its key, and the user attributes the client's updates alone produce |
| Leases.LeaseState.IsExpired | GlobalTableMockup/src/main/java/com/amazonaws/globaltables/Lease.java:72-75 | a surely expired lease may have expired, and is past its expiration |
| Leases.LeaseState.MaybeExpired | GlobalTableMockup/src/main/java/com/amazonaws/globaltables/Lease.java:77-80 | a lease past its expiration may have expired |
| Leases.LeaseState.AlmostExpired | GlobalTableMockup/src/main/java/com/amazonaws/globaltables/Lease.java:82-85 | a lease that may have expired is due for renewal |
| Leases.LeaseState.IsNextExpired | GlobalTableMockup/src/main/java/com/amazonaws/globaltables/Lease.java:87-90 | a surely expired pending transition may have expired, and is past its expiration |
| Leases.LeaseState.MaybeNextExpired | GlobalTableMockup/src/main/java/com/amazonaws/globaltables/Lease.java:92-95 | a pending transition past its expiration may have expired |
| Leases.LeaseState.Renew | GlobalTableMockup/src/main/java/com/amazonaws/globaltables/Lease.java:104-126 | a successful renewal leaves the region owning the lease for a full duration from now, with no pending transition; a failed one changes nothing; a consistent lease stays consistent |
| Leases.LeaseState.Release | GlobalTableMockup/src/main/java/com/amazonaws/globaltables/Lease.java:131-138 | only the owner releases, leaving no owner and expiration 0; the pending transition is kept; a failed release changes nothing |
| Leases.LeaseState.Acquire | GlobalTableMockup/src/main/java/com/amazonaws/globaltables/Lease.java:143-155 | only a surely expired lease is acquired, by the region for a full duration from now, with no pending transition; a failed acquire changes nothing |
| Leases.LeaseState.Take | GlobalTableMockup/src/main/java/com/amazonaws/globaltables/Lease.java:160-173 | an immediate take gives the region the lease for a full duration; otherwise the owner and expiration stay and the region becomes the next owner |
| Leases.Lease.constructor | GlobalTableMockup/src/main/java/com/amazonaws/globaltables/Lease.java:36-42 | a new lease has no owner and no next owner, and both expirations at epoch 0 |
| Leases.Lease.Held | GlobalTableMockup/src/main/java/com/amazonaws/globaltables/Lease.java:44-50 | a lease for an owner expires one duration from now and has no pending transition |
| Leases.Lease.Renew | GlobalTableMockup/src/main/java/com/amazonaws/globaltables/Lease.java:104-126 | with a pending transition: only the next owner renews, and only once the lease is surely expired; ownership then passes to it and the pending fields clear. Without one: exactly the owner renews, with no expiry check, and expiration becomes now + duration. A failed renewal changes nothing |
| Leases.Lease.Release | GlobalTableMockup/src/main/java/com/amazonaws/globaltables/Lease.java:131-138 | only the owner releases; the owner is cleared and the expiration reset to 0, and the pending transition is untouched |
| Leases.Lease.Acquire | GlobalTableMockup/src/main/java/com/amazonaws/globaltables/Lease.java:143-155 | succeeds exactly when the lease is surely expired and there is no unexpired pending transition; it then sets the owner, expiration now + duration, and clears the transition; otherwise nothing changes |
| Leases.Lease.Take | GlobalTableMockup/src/main/java/com/amazonaws/globaltables/Lease.java:160-173 | an unexpired lease records the taker as next owner with next expiration = expiration + duration and fails; an expired one passes to the taker at once |
| Leases.ExpiryMargins | GlobalTableMockup/src/main/java/com/amazonaws/globaltables/Lease.java:72-95 | a lease is surely expired exactly when it was possibly expired 2 × CLOCK_BOUND earlier, for the current and the pending expiration alike; it may have expired exactly when renewal was due TIME_TO_RENEW − CLOCK_BOUND earlier |
| Leases.ExpiryIsPermanent | GlobalTableMockup/src/main/java/com/amazonaws/globaltables/Lease.java:72-95 | once the clock passes an expiry threshold it stays passed at every later time |
| Leases.OperationsKeepConsistent | GlobalTableMockup/src/main/java/com/amazonaws/globaltables/Lease.java:104-173 | a new lease is consistent, and every operation keeps it so: no owner means expiration 0, and no next owner means next expiration 0 |
| Leases.RunKeepsConsistent | GlobalTableMockup/src/main/java/com/amazonaws/globaltables/Lease.java:104-173 | any sequence of operations on a new lease leaves it consistent |
| Leases.AcquireExcludesAcquire | GlobalTableMockup/src/main/java/com/amazonaws/globaltables/Lease.java:143-155 | right after a successful acquire, any acquire at the same time fails |
| Leases.NoTakeoverWhileOwnerTrusts | GlobalTableMockup/src/main/java/com/amazonaws/globaltables/Lease.java:143-173 | while the lease is not even possibly expired on the owner's clock, no region whose clock is at most the clock bound ahead can acquire or take it |
| Leases.AcquireReleaseAcquire | GlobalTableMockup/src/main/java/com/amazonaws/globaltables/Lease.java:131-155 | acquire by one region, release by it, then acquire by another succeeds and makes the other the owner |
| Leases.TakeDefersTransition | GlobalTableMockup/src/main/java/com/amazonaws/globaltables/Lease.java:104-165 | a take of an unexpired lease is deferred; the taker cannot renew before the lease is surely expired, the old owner cannot renew at any time, and afterwards the taker's renewal hands it the lease |
| Metadata.GlobalMetadata.GetLease | GlobalTableMockup/src/main/java/com/amazonaws/globaltables/GlobalRequestRouter.java:230 | the table's lease, kept across calls; a new unheld lease on first request |
| Replication.MaxStampIsMax | GlobalTableMockup/src/main/java/com/amazonaws/globaltables/ReplicationEngine.java:121-124 | the maximum is at least the floor, at least every timestamp, and one of them |
| Replication.ScanPullsPending | GlobalTableMockup/src/main/java/com/amazonaws/globaltables/ReplicationEngine.java:95-126 | writing a scan of the pending items one by one, in whatever order the scan returns them, gives the order-independent result `Pulled`; the scan has one item per pending key |
| Replication.Bootstrap | GlobalTableMockup/src/main/java/com/amazonaws/globaltables/ReplicationEngine.java:134-168 | a bootstrap that succeeds covers every (target, source) pair of the replica set, and each watermark is at least 0 and at least the timestamp of every item of the target written at the source |
| Replication.Pull | GlobalTableMockup/src/main/java/com/amazonaws/globaltables/ReplicationEngine.java:38-132 | a pull that does not replicate writes no replica; a failed bootstrap happens only for an uncached table and caches nothing; a missing watermark pair caches the table's watermarks and leaves the other tables' alone |
| Replication.Pass | GlobalTableMockup/src/main/java/com/amazonaws/globaltables/ReplicationEngine.java:65-131 | a pass always replicates, and leaves the (target, source) watermark at or above where it was |
| Replication.PullTouchesOnlyPending | GlobalTableMockup/src/main/java/com/amazonaws/globaltables/ReplicationEngine.java:95-118 | keys that are not pending are left as they were in the target |
| Replication.PulledAtPending | GlobalTableMockup/src/main/java/com/amazonaws/globaltables/ReplicationEngine.java:98-118 | a pending copy is written exactly when the target has no copy, or it does not conflict with the target's copy, or it wins; otherwise the target keeps its copy |
| Replication.DominatedCopyOverwrites | GlobalTableMockup/src/main/java/com/amazonaws/globaltables/ReplicationEngine.java:102-118 | a target copy whose version dominates the pending copy's is still overwritten by it |
| Replication.PassFrame | GlobalTableMockup/src/main/java/com/amazonaws/globaltables/ReplicationEngine.java:116-129 | a pass changes only the target replica, and that only when something is pending; among the watermarks it changes only the (target, source) one of the table |
| Replication.PassAdvancesWatermark | GlobalTableMockup/src/main/java/com/amazonaws/globaltables/ReplicationEngine.java:121-129 | the (target, source) watermark never decreases, and ends at or above every pending item's timestamp |
| Replication.NothingPendingAfterPass | GlobalTableMockup/src/main/java/com/amazonaws/globaltables/ReplicationEngine.java:121-129 | with the advanced watermark, nothing at the source is pending any more |
| Replication.PassByScan | GlobalTableMockup/src/main/java/com/amazonaws/globaltables/ReplicationEngine.java:91-131 | processing a scan in order, counting items and tracking the maximum timestamp, yields exactly a pass: count = scanned items, the new watermark, the new replicas |
| Replication.CachedPullIsPass | GlobalTableMockup/src/main/java/com/amazonaws/globaltables/ReplicationEngine.java:40-45 | once a table's watermarks are cached, a pull uses them and does not bootstrap again |
| Replication.PulledIntoItself | GlobalTableMockup/src/main/java/com/amazonaws/globaltables/ReplicationEngine.java:95-118 | pulling a replica into itself leaves it as it was |
| Replication.SecondPassScansNothing | GlobalTableMockup/src/main/java/com/amazonaws/globaltables/ReplicationEngine.java:65-129 | a pass with the watermarks the previous pass left behind scans nothing |
| Replication.PendingMono | GlobalTableMockup/src/main/java/com/amazonaws/globaltables/ReplicationEngine.java:65-70 | a later watermark leaves a subset of the keys pending |
| Replication.PulledAddsNonePending | GlobalTableMockup/src/main/java/com/amazonaws/globaltables/ReplicationEngine.java:95-118 | a pass from another source, or from the replica itself, makes no item of the replica's own origin pending |
| Replication.SettledIffPullsZero | GlobalTableMockup/src/main/java/com/amazonaws/globaltables/ReplicationEngine.java:40-131 | for a cached pair, nothing newer than its watermark at the source exactly when a pull of it returns 0 |
| Replication.PullSettles | GlobalTableMockup/src/main/java/com/amazonaws/globaltables/ReplicationEngine.java:65-131 | a pull that replicates leaves its own pair with nothing pending |
| Replication.PassKeepsSettled | GlobalTableMockup/src/main/java/com/amazonaws/globaltables/ReplicationEngine.java:65-131 | a pass of any pair of any table keeps every settled pair settled |
| Replication.PullKeepsSettled | GlobalTableMockup/src/main/java/com/amazonaws/globaltables/ReplicationEngine.java:38-132 | any pull, including a failed one, keeps every settled pair settled |
| Replication.PullsKeepSettled | GlobalTableMockup/src/main/java/com/amazonaws/globaltables/ReplicationEngine.java:38-132 | a settled pair stays settled through any sequence of pulls |
| Replication.SecondPullReturnsZero | GlobalTableMockup/src/main/java/com/amazonaws/globaltables/GlobalTableTest.java:390-434 | after a pull of a pair replicates, pulling the pair again returns 0, whatever pulls of any pairs come in between, with no client writes in the meantime |
| Replication.SettledPullsReturnZero | GlobalTableMockup/src/main/java/com/amazonaws/globaltables/GlobalTableTest.java:390-434 | a sequence of pulls of settled pairs returns 0 on every pull |
| Replication.RoundTwoReturnsZero | GlobalTableMockup/src/main/java/com/amazonaws/globaltables/GlobalTableTest.java:343-434 | a round of pulls that all replicate, made again with no client writes in between, returns 0 on every pull |
| Replication.MasterCopyConverges | GlobalTableMockup/src/main/java/com/amazonaws/globaltables/ReplicationEngine.java:98-118 | concurrent first writes of a key at the master and elsewhere conflict, and a pull in either direction leaves the master's copy |
| Engine.ReplicationEngine.constructor | GlobalTableMockup/src/main/java/com/amazonaws/globaltables/ReplicationEngine.java:34-36 | a new engine has no watermarks |
| Engine.ReplicationEngine.GetTableTimestamps | GlobalTableMockup/src/main/java/com/amazonaws/globaltables/ReplicationEngine.java:134-168 | returns the bootstrap: every (target, source) pair of the replica set holds the latest timestamp among the target's items written at the source, or 0; it fails when an item's origin is outside the replica set |
| Engine.ReplicationEngine.ZeroTimestamps | GlobalTableMockup/src/main/java/com/amazonaws/globaltables/ReplicationEngine.java:141-148 | one row per region of the replica set, each with every source at 0 |
| Engine.ReplicationEngine.ZeroRow | GlobalTableMockup/src/main/java/com/amazonaws/globaltables/ReplicationEngine.java:143-146 | every source of the replica set at 0 |
| Engine.ReplicationEngine.RaiseRow | GlobalTableMockup/src/main/java/com/amazonaws/globaltables/ReplicationEngine.java:151-164 | fails exactly when the replica holds an item from outside the replica set; otherwise returns the bootstrap row of that replica |
| Engine.ReplicationEngine.TableTimestamps | GlobalTableMockup/src/main/java/com/amazonaws/globaltables/ReplicationEngine.java:39-45 | the cached watermarks, or on first use the bootstrap, which is then cached; a failed bootstrap caches nothing |
| Engine.ReplicationEngine.PullItems | GlobalTableMockup/src/main/java/com/amazonaws/globaltables/ReplicationEngine.java:38-132 | outcome, watermarks and replicas after the call are exactly `Pull` of the state before |
| Engine.ReplicationEngine.WriteScanned | GlobalTableMockup/src/main/java/com/amazonaws/globaltables/ReplicationEngine.java:91-126 | counts every scanned item, writes the scan into the target item by item, and tracks the maximum of the watermark and the scanned timestamps |
| Engine.ReplicationEngine.ReplicateItem | GlobalTableMockup/src/main/java/com/amazonaws/globaltables/ReplicationEngine.java:97-118 | the scanned item is written unless it conflicts with the target's copy and loses; nothing else changes |
| Router.NextVersionSupersedes | GlobalTableMockup/src/main/java/com/amazonaws/globaltables/GlobalRequestRouter.java:245-260 | a write to a new key gets count 1 at the writing region and 0 elsewhere; otherwise one more count at the region than the stored version, the same elsewhere, and it strictly supersedes the stored version |
| Router.BumpVersionMap | GlobalTableMockup/src/main/java/com/amazonaws/globaltables/GlobalRequestRouter.java:263-289 | the deprecated map-based bump gives the same vector as the object-based one |
| Router.GlobalRequestRouter.constructor | GlobalTableMockup/src/main/java/com/amazonaws/globaltables/GlobalRequestRouter.java:60-80 | a router for the table and region, with no master, lease or master handle known yet |
| Router.GlobalRequestRouter.RefreshMasterEndpoint | GlobalTableMockup/src/main/java/com/amazonaws/globaltables/GlobalRequestRouter.java:228-243 | the lease is fetched once and kept; the metadata is consulted only when no master is cached or the lease may have expired; the handle is replaced only when that master differs from the cached one |
| Router.GlobalRequestRouter.GetItem | GlobalTableMockup/src/main/java/com/amazonaws/globaltables/GlobalRequestRouter.java:94-105 | a consistent read refreshes the endpoint and reads the master replica; an eventual one reads the local replica and changes nothing |
| Router.GlobalRequestRouter.GetItemDefault | GlobalTableMockup/src/main/java/com/amazonaws/globaltables/GlobalRequestRouter.java:87-92 | the default read is eventually consistent: it reads the local replica and changes nothing |
| Router.GlobalRequestRouter.PutItem | GlobalTableMockup/src/main/java/com/amazonaws/globaltables/GlobalRequestRouter.java:114-134 | writes at the master (consistent) or the local replica (eventual); the written item is the client's item stamped with now, the written region, and the stored version bumped at that region; only that key of that replica changes |
| Router.GlobalRequestRouter.PutItemDefault | GlobalTableMockup/src/main/java/com/amazonaws/globaltables/GlobalRequestRouter.java:107-112 | the default put is strongly consistent |
| Router.GlobalRequestRouter.UpdateItem | GlobalTableMockup/src/main/java/com/amazonaws/globaltables/GlobalRequestRouter.java:144-163 | the client's updates, followed by the timestamp, origin and bumped-version updates, are applied to the key at the chosen replica. The version bumped is that of the item stored under the key value the spec recorded. The written item has the key, the stamps, and the user attributes of the client's updates. With no recorded key value the version read fails and nothing is written |
| Router.GlobalRequestRouter.UpdateItemDefault | GlobalTableMockup/src/main/java/com/amazonaws/globaltables/GlobalRequestRouter.java:136-142 | corrected: a strongly consistent update of the key, with the stored item's version under that key bumped at the master |
| Router.GlobalRequestRouter.UpdateItemDefaultAsWritten | GlobalTableMockup/src/main/java/com/amazonaws/globaltables/GlobalRequestRouter.java:136-142 | as written: after the endpoint refresh no key value is recorded, so the version read fails and no replica changes |
| Router.RecordedKey | GlobalTableMockup/src/main/java/com/amazonaws/globaltables/ConsistentUpdateItemSpec.java:34-42 | a recorded key value is the one passed in |
| Router.ObjectKeyIsLost | GlobalTableMockup/src/main/java/com/amazonaws/globaltables/ConsistentUpdateItemSpec.java:34-42 | the same key value is recorded through the `String` overload and lost through the inherited `Object` one |
| Router.GlobalRequestRouter.BumpVersionVector | GlobalTableMockup/src/main/java/com/amazonaws/globaltables/GlobalRequestRouter.java:245-260 | a new vector: a first write's vector for the region when the replica holds no item, otherwise the stored version bumped at the region |
| Router.TwoConsistentPuts | GlobalTableMockup/src/main/java/com/amazonaws/globaltables/GlobalRequestRouter.java:114-132 | two consistent puts of a new key through a router outside the master region both go to the master, with origin the master and versions `{master: 1}` then `{master: 2}`; the master then holds the second |
| Router.RepeatedWritesCount | GlobalTableMockup/src/main/java/com/amazonaws/globaltables/GlobalRequestRouter.java:245-260 | two stamped writes of a new key at one region carry versions `{region: 1}` then `{region: 2}`, and the replica then holds the second |

## Findings

| source | as written | input that shows it | evidently intended | confidence | as-written member | corrected member |
|---|---|---|---|---|---|---|
| GlobalTableMockup/src/main/java/com/amazonaws/globaltables/GlobalRequestRouter.java:136-142 | `hashKeyValue` has static type `Object`, so `.withPrimaryKey` at line 139 binds to the inherited `UpdateItemSpec.withPrimaryKey(String, Object)`. The spec's recorded key value stays null, and the version read at line 155 asks for a null key. | `updateItem("id", "k1", update)`, with the key as an `Object` | the key value is recorded, and the version of the item stored under it is bumped | not executed; how the service answers a read with a null key is outside this model, which takes it as a failure | Router.GlobalRequestRouter.UpdateItemDefaultAsWritten | Router.GlobalRequestRouter.UpdateItemDefault |

## Left out

- The metadata service is a stub: an in-memory map from table to master and replica set, plus
  a lease per table. In the source it is a DynamoDB-backed class that is not part of this
  model. The router calls a `getLease` it does not define; it is modelled as returning the
  table's lease, created unheld on first request. Its `listRegions` list becomes a set.
- The item store is a stand-in: one `map<Key, Item>` per (table, region). A replica that was
  never written reads as empty. Scans return every matching item at once, with no
  pagination.
- Table provisioning, the demo program, the test driver with its fixture data, and all
  printing are not part of this model. The conflict logging and the conflict counter in
  `pullItems` are left out too, because the counter is never read.
- The request-based router variants (`getItem(GetItemRequest)`, `putItem(ConsistentPutItemRequest)`,
  `updateItem(ConsistentUpdateItemRequest)`) are left out. The source marks them as not needed.
- Reading the table's key schema (`describe`, `keyName`) is left out: items carry their key
  directly.
- Item-store failures during a pull are not modelled: every scanned item is processed.
- Client attribute updates are modelled as putting or deleting a user attribute. Adding to
  numbers and adding or removing set elements are not modelled.
- Concurrency is left out. This includes the race between reading the stored version and
  writing the bumped one.
- Aliasing is left out. The model copies values where Java shares objects:
  - the `Date` objects of a lease;
  - the map `toMap` returns;
  - the caller's `Item` in `putItem`. Java stamps the timestamp, origin and version into that
    object in place (`GlobalRequestRouter.java:125-129`), so the caller sees them after the call.
    `Router.GlobalRequestRouter.PutItem` writes a stamped copy and leaves the caller's item as it was.

  `FromMap` does keep the given map as the vector, as the source does.
- Java `int` and `long` overflow is left out: counts and timestamps are unbounded integers.
- VersionVectors.VersionVector.FromMap takes only non-negative counts: `Versions.Vector` maps
  regions to `nat`, where Java's `fromMap` accepts any `Integer`. With a negative count at a
  region only the first vector has, Java's dominance check (it looks only at the other
  vector's regions) is not pointwise `<=`. So `Versions.DominatesPointwise` and
  `ConflictResolver.ConflictIffEachAhead` rely on non-negative counts. In the core, counts
  arise only from the one-replica constructor and `bump`, which never make them negative.
- Every item carries its three system attributes. The source's failure on an item without
  them is not modelled.
- Three failures of the source are modelled as error outcomes. No exception is modelled.
  - A bootstrap that meets an item whose origin is outside the replica set throws a
    null-pointer exception when it unboxes the missing entry (`ReplicationEngine.java:161`).
    The model gives `BootstrapFailed`.
  - A pull whose target has no row of watermarks throws a null-pointer exception at the
    lookup (`ReplicationEngine.java:65`). The model gives `NoWatermark`.
  - A pull whose target row has no entry for the source gets a null `lastSyncTime`, which
    throws nothing there. The scan is then sent with a null bound (`ReplicationEngine.java:66-71`).
    It fails there, or at the unboxing comparison at `ReplicationEngine.java:122` once an item
    comes back. The model gives `NoWatermark` for this case too.
- A table missing from the metadata is a precondition of the operations that look it up.
- The attribute-update helpers the router calls on `SystemAttributes` do not exist in the
  source. They are modelled as the updates their names describe.
- The wall clock is a parameter. An eventually consistent read does not consult it.
  Consistent and eventual requests of one call share the one `now`.
- Router.TwoConsistentPuts: the router is created inside the scenario, so it starts with no
  cached master.
