/**
 * The replication engine: a cache of watermarks per table, filled by a bootstrap scan of
 * every replica the first time the table is pulled, and the pass that copies a source
 * replica's newer writes into a target replica. Each method is proved against the
 * specification functions of module Replication.
 */
module Engine {
  import opened Types
  import opened Items
  import opened Store
  import opened ConflictResolver
  import opened Replication
  import Metadata

  lemma ReplaceTwice(marks: map<TableName, Watermarks>, table: TableName, first: Watermarks, second: Watermarks)
    ensures marks[table := first][table := second] == marks[table := second]
  {
  }

  class ReplicationEngine {
    /** table name -> target region -> source region -> watermark. */
    var highTimestamps: map<TableName, Watermarks>

    constructor ()
      ensures highTimestamps == map[]
    {
      highTimestamps := map[];
    }

    /**
     * The bootstrap of a table's watermarks: all pairs of the replica set start at 0, then
     * every replica is scanned and each of its items raises the (replica, origin) watermark
     * to its timestamp. An item whose origin is outside the replica set stops the bootstrap.
     */
    method GetTableTimestamps(table: TableName, store: ItemStore, metadata: Metadata.GlobalMetadata)
      returns (r: Option<Watermarks>)
      requires store.Valid() && table in metadata.tables
      ensures r == Bootstrap(store.replicas, table, metadata.tables[table].regions)
    {
      var replicaSet := metadata.ListRegions(table);
      var timestamps := ZeroTimestamps(replicaSet);

      // Each replica raises its own row.
      var todo := replicaSet;
      while todo != {}
        invariant todo <= replicaSet
        invariant timestamps.Keys == replicaSet
        invariant forall t :: t in replicaSet - todo ==>
          && OriginsKnownAt(store.replicas, table, t, replicaSet)
          && timestamps[t] == BootRow(store.replicas, table, t, replicaSet)
        decreases todo
      {
        var target :| target in todo;
        var row := RaiseRow(table, target, replicaSet, store);
        if row.None? {
          assert !OriginsKnown(store.replicas, table, replicaSet);
          return None;
        }
        timestamps := timestamps[target := row.value];
        todo := todo - {target};
      }
      assert timestamps == map t | t in replicaSet :: BootRow(store.replicas, table, t, replicaSet);
      return Some(timestamps);
    }

    /** Every (target, source) pair of the replica set at 0. */
    method ZeroTimestamps(replicaSet: set<Region>) returns (timestamps: Watermarks)
      ensures timestamps.Keys == replicaSet
      ensures forall t :: t in timestamps ==> timestamps[t] == Zeros(replicaSet)
    {
      timestamps := map[];
      var todo := replicaSet;
      while todo != {}
        invariant todo <= replicaSet
        invariant timestamps.Keys == replicaSet - todo
        invariant forall t :: t in timestamps ==> timestamps[t] == Zeros(replicaSet)
        decreases todo
      {
        var target :| target in todo;
        var timesForTarget := ZeroRow(replicaSet);
        timestamps := timestamps[target := timesForTarget];
        todo := todo - {target};
      }
    }

    /** The zero watermark of every source in the replica set. */
    method ZeroRow(replicaSet: set<Region>) returns (timesForTarget: map<Region, int>)
      ensures timesForTarget == Zeros(replicaSet)
    {
      timesForTarget := map[];
      var sources := replicaSet;
      while sources != {}
        invariant sources <= replicaSet
        invariant timesForTarget.Keys == replicaSet - sources
        invariant forall s :: s in timesForTarget ==> timesForTarget[s] == 0
        decreases sources
      {
        var source :| source in sources;
        timesForTarget := timesForTarget[source := 0];
        sources := sources - {source};
      }
    }

    /**
     * Scans the target replica and raises each origin's watermark, starting from 0, to the
     * latest timestamp of the items written there; fails on an item from outside the set.
     */
    method RaiseRow(table: TableName, target: Region, replicaSet: set<Region>, store: ItemStore)
      returns (r: Option<map<Region, int>>)
      requires store.Valid()
      ensures r.None? <==> !OriginsKnownAt(store.replicas, table, target, replicaSet)
      ensures r.Some? ==> r.value == BootRow(store.replicas, table, target, replicaSet)
    {
      var handle := new TableHandle(table, target);
      var items := store.Scan(handle, All);
      var row := Zeros(replicaSet);
      var i := 0;
      while i < |items|
        invariant 0 <= i <= |items|
        invariant row.Keys == replicaSet
        invariant forall j :: 0 <= j < i ==> items[j].origin in replicaSet
        invariant forall s :: s in replicaSet ==> IsMaxStamp(row[s], 0, StampsOf(items[..i], s))
      {
        var itemOrigin := items[i].origin;
        if itemOrigin !in row {
          assert items[i].key in Selected(store.Contents(handle), All);
          return None;
        }
        forall s | s in replicaSet {
          MaxStampSnoc(row[s], 0, items, i, s);
        }
        if items[i].timestamp > row[itemOrigin] {
          row := row[itemOrigin := items[i].timestamp];
        }
        i := i + 1;
      }
      assert items[..i] == items;
      ScannedRow(items, store.Contents(handle), replicaSet, row);
      return Some(row);
    }

    /**
     * The table's watermarks: the cached ones, or on first use the bootstrap, which is then
     * cached. A failed bootstrap caches nothing.
     */
    method TableTimestamps(table: TableName, store: ItemStore, metadata: Metadata.GlobalMetadata)
      returns (m: Option<Watermarks>)
      requires store.Valid() && table in metadata.tables
      modifies this
      ensures m == MarksFor(old(highTimestamps), store.replicas, table, metadata.tables[table].regions)
      ensures m.None? ==> highTimestamps == old(highTimestamps)
      ensures m.Some? ==> highTimestamps == old(highTimestamps)[table := m.value]
    {
      if table !in highTimestamps {
        m := GetTableTimestamps(table, store, metadata);
        if m.Some? {
          highTimestamps := highTimestamps[table := m.value];
        }
      } else {
        m := Some(highTimestamps[table]);
        assert highTimestamps == old(highTimestamps)[table := m.value];
      }
    }

    /**
     * One pass from `source` into `target`: scan the source for items that originated there
     * after the watermark, write each into the target unless it conflicts with the target's
     * copy and loses, and move the watermark to the latest timestamp scanned. Returns the
     * number of items scanned.
     */
    method PullItems(table: TableName, target: Region, source: Region,
                     store: ItemStore, metadata: Metadata.GlobalMetadata) returns (r: PullOutcome)
      requires store.Valid() && table in metadata.tables
      modifies this, store
      ensures store.Valid()
      ensures (r, highTimestamps, store.replicas) ==
        Pull(old(highTimestamps), old(store.replicas), table, target, source, metadata.tables[table])
    {
      PullCases(highTimestamps, store.replicas, table, target, source, metadata.tables[table]);
      var cached := TableTimestamps(table, store, metadata);
      if cached.None? {
        return BootstrapFailed;
      }
      var tableTimestamps := cached.value;
      if target !in tableTimestamps || source !in tableTimestamps[target] {
        return NoWatermark;
      }

      var lastSyncTime := tableTimestamps[target][source];
      var sourceTable := new TableHandle(table, source);
      var scanResults := store.Scan(sourceTable, NewerFrom(source, lastSyncTime));
      var maxTimestamp, numReplicated := WriteScanned(table, target, source, scanResults, lastSyncTime, store, metadata);
      PassByScan(tableTimestamps, old(highTimestamps), old(store.replicas), table, target, source,
                 metadata.tables[table].master, scanResults, store.replicas, maxTimestamp);
      var updated := tableTimestamps[target := tableTimestamps[target][source := maxTimestamp]];
      ReplaceTwice(old(highTimestamps), table, tableTimestamps, updated);
      highTimestamps := highTimestamps[table := updated];
      return Replicated(numReplicated);
    }

    /**
     * The loop of a pass: each scanned item is written into the target unless it conflicts
     * with the target's copy and loses; the latest scanned timestamp is tracked from the
     * watermark up, and the scanned items are counted.
     */
    method WriteScanned(table: TableName, target: Region, source: Region, scanResults: seq<Item>,
                        lastSyncTime: int, store: ItemStore, metadata: Metadata.GlobalMetadata)
      returns (maxTimestamp: int, numReplicated: nat)
      requires store.Valid() && table in metadata.tables
      requires forall j :: 0 <= j < |scanResults| ==> scanResults[j].origin == source
      modifies store
      ensures store.Valid()
      ensures numReplicated == |scanResults|
      ensures IsMaxStamp(maxTimestamp, lastSyncTime, StampsOf(scanResults, source))
      ensures |scanResults| == 0 ==> store.replicas == old(store.replicas)
      ensures |scanResults| > 0 ==> store.replicas == old(store.replicas)[(table, target) :=
        ApplyScan(TableOf(old(store.replicas), table, target), scanResults, metadata.tables[table].master)]
    {
      var targetTable := new TableHandle(table, target);
      ghost var master := metadata.GetMaster(table);
      maxTimestamp := lastSyncTime;
      numReplicated := 0;
      var i := 0;
      while i < |scanResults|
        invariant 0 <= i <= |scanResults| && numReplicated == i
        invariant store.Valid()
        invariant store.replicas == ScanWritten(old(store.replicas), table, target, scanResults[..i], master)
        invariant IsMaxStamp(maxTimestamp, lastSyncTime, StampsOf(scanResults[..i], source))
      {
        var sourceItem := scanResults[i];
        ReplicateItem(targetTable, sourceItem, store, metadata);
        ScanWrittenSnoc(old(store.replicas), table, target, scanResults, i, master);
        MaxStampSnoc(maxTimestamp, lastSyncTime, scanResults, i, source);
        if sourceItem.timestamp > maxTimestamp {
          maxTimestamp := sourceItem.timestamp;
        }
        numReplicated := numReplicated + 1;
        i := i + 1;
      }
      assert scanResults[..i] == scanResults;
    }

    /**
     * One scanned item: written into the target unless it conflicts with the target's copy
     * and loses to it, in which case the target already holds a copy and stays as it was.
     */
    method ReplicateItem(targetTable: TableHandle, sourceItem: Item, store: ItemStore, metadata: Metadata.GlobalMetadata)
      requires store.Valid() && targetTable.table in metadata.tables
      modifies store
      ensures store.Valid()
      ensures store.replicas ==
        old(store.replicas)[(targetTable.table, targetTable.region) :=
          ApplyOne(old(store.Contents(targetTable)), sourceItem, metadata.tables[targetTable.table].master)]
    {
      var doUpdate := true;
      var targetItem := store.GetItem(targetTable, sourceItem.key);
      if IsConflict(Some(sourceItem), targetItem) {
        if !IsWinner(sourceItem, targetItem.value, metadata.GetMaster(targetTable.table)) {
          doUpdate := false;
        }
      }
      if doUpdate {
        store.PutItem(targetTable, sourceItem);
      } else {
        assert (targetTable.table, targetTable.region) in store.replicas;
      }
    }
  }
}
