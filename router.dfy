/**
 * The global request router of one table in one region. Eventually consistent requests go to
 * the local replica; strongly consistent ones go to the master replica, whose endpoint the
 * router caches and refreshes from the table metadata when the mastership lease may have
 * expired. Every write is stamped with the writing region, the time and a version vector
 * that bumps the writing region's entry of the stored item's version.
 */
module Router {
  import opened Types
  import opened Items
  import opened Store
  import Versions
  import opened VersionVectors
  import Leases
  import Metadata

  /** The version a write at `region` stamps, given the item stored at the written replica. */
  function NextVersion(stored: Option<Item>, region: Region): Versions.Vector
  {
    if stored.None? then Versions.Single(region) else Versions.Bump(stored.value.version, region)
  }

  /**
   * A new item gets count 1 at the writing region and 0 elsewhere; otherwise the new version
   * counts one more write at the region than the stored one, strictly supersedes it, and
   * agrees with it at every other region.
   */
  lemma NextVersionSupersedes(stored: Option<Item>, region: Region)
    ensures var v := NextVersion(stored, region);
      && (stored.None? ==> forall r :: Versions.Count(v, r) == if r == region then 1 else 0)
      && (stored.Some? ==>
            && Versions.Count(v, region) == Versions.Count(stored.value.version, region) + 1
            && (forall r :: r != region ==> Versions.Count(v, r) == Versions.Count(stored.value.version, r))
            && Versions.Dominates(v, stored.value.version)
            && !Versions.Dominates(stored.value.version, v))
  {
    if stored.Some? {
      Versions.BumpSupersedes(stored.value.version, region);
    }
  }

  /** The item a put writes: the client's item stamped with the time, region and new version. */
  function Stamped(item: Item, now: int, region: Region, stored: Option<Item>): Item
  {
    item.(timestamp := now, origin := region, version := NextVersion(stored, region))
  }

  /**
   * The deprecated bump over a raw counter map: read the stored item's version (an empty map
   * when there is no item), then add 1 to the region's entry or insert 1.
   */
  method BumpVersionMap(store: ItemStore, replica: TableHandle, key: Key, region: Region)
    returns (versionVector: Versions.Vector)
    ensures versionVector == NextVersion(Find(store.Contents(replica), key), region)
  {
    var stored := store.GetItem(replica, key);
    var current: Option<Versions.Vector> := None;
    if stored.Some? {
      current := Some(stored.value.version);
    }
    versionVector := if current.None? then map[] else current.value;
    if region in versionVector {
      var count := versionVector[region];
      versionVector := versionVector[region := count + 1];
    } else {
      versionVector := versionVector[region := 1];
    }
  }

  class GlobalRequestRouter {
    const tableName: TableName
    const localRegion: Region
    const metadata: Metadata.GlobalMetadata
    /** The item stores of all regions, which the handles below name replicas of. */
    const store: ItemStore
    const localReplica: TableHandle

    var masterRegion: Option<Region>
    var masterLease: Leases.Lease?
    var masterReplica: TableHandle?

    ghost predicate Valid()
      reads this, store
    {
      && store.Valid()
      && localReplica.table == tableName && localReplica.region == localRegion
      && (masterRegion.None? <==> masterReplica == null)
      && (masterReplica != null ==>
            masterReplica.table == tableName && masterRegion == Some(masterReplica.region))
    }

    /** A router for `table` running in `region`; the master is not known yet. */
    constructor (table: TableName, region: Region, metadata: Metadata.GlobalMetadata, store: ItemStore)
      requires store.Valid()
      ensures Valid()
      ensures tableName == table && localRegion == region
      ensures this.metadata == metadata && this.store == store
      ensures masterRegion.None? && masterLease == null && masterReplica == null
    {
      tableName := table;
      localRegion := region;
      this.metadata := metadata;
      this.store := store;
      localReplica := new TableHandle(table, region);
      masterRegion := None;
      masterLease := null;
      masterReplica := null;
    }

    /**
     * The effect of refreshing the master endpoint at time `now`: the lease is fetched once
     * and kept; the metadata's master is looked up only when no master is cached or the lease
     * may have expired, and the handle is replaced only when that master differs from the
     * cached one.
     */
    twostate predicate MasterRefreshed(now: int)
      reads this, metadata, masterLease
    {
      && metadata.tables == old(metadata.tables)
      && tableName in metadata.tables
      && masterLease != null
      && (old(masterLease) != null ==> masterLease == old(masterLease) && metadata.leases == old(metadata.leases))
      && (old(masterLease) == null ==>
            && (tableName in old(metadata.leases) ==>
                  masterLease == old(metadata.leases[tableName]) && metadata.leases == old(metadata.leases))
            && (tableName !in old(metadata.leases) ==>
                  && fresh(masterLease) && masterLease.State() == Leases.Unheld
                  && metadata.leases == old(metadata.leases)[tableName := masterLease]))
      && if old(masterRegion).None? || masterLease.State().MaybeExpired(now) then
           && masterRegion == Some(metadata.tables[tableName].master)
           && (masterRegion == old(masterRegion) ==> masterReplica == old(masterReplica))
           && (masterRegion != old(masterRegion) ==> fresh(masterReplica))
         else
           masterRegion == old(masterRegion) && masterReplica == old(masterReplica)
    }

    method RefreshMasterEndpoint(now: int)
      requires Valid() && tableName in metadata.tables
      modifies this, metadata
      ensures Valid()
      ensures masterRegion.Some?
      ensures MasterRefreshed(now)
    {
      if masterLease == null {
        masterLease := metadata.GetLease(tableName);
      }
      if masterRegion.None? || masterLease.State().MaybeExpired(now) {
        var currentMaster := metadata.GetMaster(tableName);
        if Some(currentMaster) != masterRegion {
          masterRegion := Some(currentMaster);
          masterReplica := new TableHandle(tableName, currentMaster);
        }
      }
    }

    /**
     * A read: from the master replica when `consistent` (after refreshing the endpoint),
     * otherwise from the local replica.
     */
    method GetItem(key: Key, consistent: bool, now: int) returns (item: Option<Item>)
      requires Valid() && (consistent ==> tableName in metadata.tables)
      modifies this, metadata
      ensures Valid()
      ensures !consistent ==> unchanged(this, metadata) && item == Find(TableOf(store.replicas, tableName, localRegion), key)
      ensures consistent ==>
        && MasterRefreshed(now)
        && item == Find(TableOf(store.replicas, tableName, masterRegion.value), key)
    {
      var replica := localReplica;
      if consistent {
        RefreshMasterEndpoint(now);
        replica := masterReplica;
      }
      item := store.GetItem(replica, key);
    }

    /** `getItem(name, value)`: an eventually consistent read. */
    method GetItemDefault(key: Key) returns (item: Option<Item>)
      requires Valid()
      modifies this, metadata
      ensures unchanged(this, metadata)
      ensures item == Find(TableOf(store.replicas, tableName, localRegion), key)
    {
      // An eventually consistent read never consults the clock.
      item := GetItem(key, false, 0);
    }

    /**
     * A put: the item is written to the master replica when `consistent` (after refreshing the
     * endpoint), otherwise to the local replica, stamped with `now`, the written region and
     * the stored item's version bumped at that region.
     */
    method PutItem(item: Item, consistent: bool, now: int) returns (written: Item)
      requires Valid() && (consistent ==> tableName in metadata.tables)
      modifies this, metadata, store
      ensures Valid()
      ensures !consistent ==> unchanged(this, metadata)
      ensures consistent ==> MasterRefreshed(now)
      ensures var region := if consistent then masterRegion.value else localRegion;
        var before := TableOf(old(store.replicas), tableName, region);
        && written == Stamped(item, now, region, Find(before, item.key))
        && store.replicas == old(store.replicas)[(tableName, region) := before[item.key := written]]
    {
      var regionToWrite := localRegion;
      var replica := localReplica;
      if consistent {
        RefreshMasterEndpoint(now);
        regionToWrite := masterRegion.value;
        replica := masterReplica;
      }
      var newVersion := BumpVersionVector(replica, item.key, regionToWrite);
      written := item.(timestamp := now, origin := regionToWrite, version := newVersion.ToMap());
      store.PutItem(replica, written);
    }

    /** `putItem(item)`: a strongly consistent put. */
    method PutItemDefault(item: Item, now: int) returns (written: Item)
      requires Valid() && tableName in metadata.tables
      modifies this, metadata, store
      ensures Valid() && MasterRefreshed(now)
      ensures var before := TableOf(old(store.replicas), tableName, masterRegion.value);
        && written == Stamped(item, now, masterRegion.value, Find(before, item.key))
        && store.replicas == old(store.replicas)[(tableName, masterRegion.value) := before[item.key := written]]
    {
      written := PutItem(item, true, now);
    }

    /**
     * An update: the client's attribute updates, followed by updates of the timestamp, the
     * origin and the bumped version, applied to `key` at the master replica when `consistent`
     * (after refreshing the endpoint), otherwise at the local replica. The version read uses
     * the key value the spec recorded, `keyValue`. When none was recorded, the read asks for a
     * null key and fails, and nothing is written.
     */
    method UpdateItem(key: Key, keyValue: Option<Key>, updates: seq<AttributeUpdate>, consistent: bool, now: int)
      returns (written: Option<Item>)
      requires Valid() && (consistent ==> tableName in metadata.tables)
      modifies this, metadata, store
      ensures Valid()
      ensures !consistent ==> unchanged(this, metadata)
      ensures consistent ==> MasterRefreshed(now)
      ensures keyValue.None? ==> written.None? && store.replicas == old(store.replicas)
      ensures keyValue.Some? ==>
        var region := if consistent then masterRegion.value else localRegion;
        var before := TableOf(old(store.replicas), tableName, region);
        var version := NextVersion(Find(before, keyValue.value), region);
        && written.Some?
        && written.value == ApplyUpdates(UpdateBase(before, key), updates + SystemUpdates(now, region, version))
        && written.value.key == key && written.value.origin == region && written.value.timestamp == now
        && written.value.version == version
        && written.value.attributes == ApplyUpdates(UpdateBase(before, key), updates).attributes
        && store.replicas == old(store.replicas)[(tableName, region) := before[key := written.value]]
    {
      var regionToWrite := localRegion;
      var replica := localReplica;
      if consistent {
        RefreshMasterEndpoint(now);
        regionToWrite := masterRegion.value;
        replica := masterReplica;
      }
      if keyValue.None? {
        // The version read carries a null key value and fails before any write.
        return None;
      }
      var newVersion := BumpVersionVector(replica, keyValue.value, regionToWrite);
      var applied := updates + SystemUpdates(now, regionToWrite, newVersion.ToMap());
      StampedAfterUpdates(UpdateBase(store.Contents(replica), key), updates, now, regionToWrite, newVersion.ToMap());
      UpdateBaseKey(store.Contents(replica), key);
      var item := store.UpdateItem(replica, key, applied);
      written := Some(item);
    }

    /**
     * `updateItem(name, value, updates...)` as evidently intended: a strongly consistent update
     * whose version read uses the key being updated.
     */
    method UpdateItemDefault(key: Key, updates: seq<AttributeUpdate>, now: int) returns (written: Item)
      requires Valid() && tableName in metadata.tables
      modifies this, metadata, store
      ensures Valid() && MasterRefreshed(now)
      ensures var before := TableOf(old(store.replicas), tableName, masterRegion.value);
        var version := NextVersion(Find(before, key), masterRegion.value);
        && written == ApplyUpdates(UpdateBase(before, key), updates + SystemUpdates(now, masterRegion.value, version))
        && store.replicas == old(store.replicas)[(tableName, masterRegion.value) := before[key := written]]
    {
      var w := UpdateItem(key, RecordedKey(StringKey(key)), updates, true, now);
      written := w.value;
    }

    /**
     * `updateItem(name, value, updates...)` as written: the key reaches the spec with static
     * type `Object`, so no key value is recorded, the version read fails after the endpoint
     * refresh, and nothing is written.
     */
    method UpdateItemDefaultAsWritten(key: Key, updates: seq<AttributeUpdate>, now: int) returns (written: Option<Item>)
      requires Valid() && tableName in metadata.tables
      modifies this, metadata, store
      ensures Valid() && MasterRefreshed(now)
      ensures written.None? && store.replicas == old(store.replicas)
    {
      ObjectKeyIsLost(key);
      written := UpdateItem(key, RecordedKey(ObjectKey(key)), updates, true, now);
    }

    /**
     * Reads the item stored at `replica` and returns a new vector: `{region: 1}` when there
     * is none, otherwise the stored version bumped at `region`.
     */
    method BumpVersionVector(replica: TableHandle, key: Key, region: Region) returns (newVersion: VersionVector)
      ensures fresh(newVersion)
      ensures newVersion.vector == NextVersion(Find(store.Contents(replica), key), region)
    {
      var storedItem := store.GetItem(replica, key);
      if storedItem.None? {
        newVersion := new VersionVector.Single(region);
      } else {
        newVersion := new VersionVector.Empty();
        newVersion := newVersion.FromMap(storedItem.value.version);
        newVersion := newVersion.Bump(region);
      }
    }
  }

  /**
   * How the key reaches a `ConsistentUpdateItemSpec`: through its own `withPrimaryKey` with a
   * `String` value, or, when the value's static type is `Object`, through the inherited one.
   */
  datatype KeyArgument = StringKey(value: Key) | ObjectKey(value: Key)

  /** The key value the spec records for the version read; the inherited overload records none. */
  function RecordedKey(arg: KeyArgument): (r: Option<Key>)
    ensures r.Some? ==> r.value == arg.value
  {
    match arg
    case StringKey(k) => Some(k)
    case ObjectKey(_) => None
  }

  /** The same key value is recorded through the `String` overload and lost through the `Object` one. */
  lemma ObjectKeyIsLost(k: Key)
    ensures RecordedKey(StringKey(k)) == Some(k)
    ensures RecordedKey(ObjectKey(k)).None?
  {
  }

  /** The item an update starts from carries the requested key. */
  lemma UpdateBaseKey(t: Table, key: Key)
    requires WellKeyed(t)
    ensures UpdateBase(t, key).key == key
  {
  }

  /**
   * Two strongly consistent puts of a key that is new at the master, through a new router in
   * another region: both are written at the master with origin the master, the first with
   * version `{master: 1}` and the second with version `{master: 2}`.
   */
  method TwoConsistentPuts(table: TableName, local: Region, metadata: Metadata.GlobalMetadata, store: ItemStore,
                           first: Item, second: Item, now1: int, now2: int)
    returns (written1: Item, written2: Item)
    requires store.Valid() && table in metadata.tables
    requires local != metadata.tables[table].master
    requires first.key == second.key && first.key !in TableOf(store.replicas, table, metadata.tables[table].master)
    modifies metadata, store
    ensures var master := old(metadata.tables[table].master);
      && written1.origin == master && written1.version == map[master := 1]
      && written2.origin == master && written2.version == map[master := 2]
      && Find(TableOf(store.replicas, table, master), first.key) == Some(written2)
  {
    ghost var master := metadata.tables[table].master;
    ghost var before := TableOf(store.replicas, table, master);
    var router := new GlobalRequestRouter(table, local, metadata, store);
    written1 := router.PutItemDefault(first, now1);
    assert router.masterRegion == Some(master);
    written2 := router.PutItemDefault(second, now2);
    assert router.masterRegion == Some(master);
    RepeatedWritesCount(before, first, second, master, now1, now2);
  }

  /**
   * Two puts of the same new key at one region: the first counts one write there, the second
   * two, and the second is what the replica then holds.
   */
  lemma RepeatedWritesCount(t: Table, first: Item, second: Item, region: Region, now1: int, now2: int)
    requires first.key == second.key && first.key !in t
    ensures var written1 := Stamped(first, now1, region, Find(t, first.key));
      var written2 := Stamped(second, now2, region, Find(t[first.key := written1], second.key));
      && written1.version == map[region := 1]
      && written2.version == map[region := 2]
      && Find(t[first.key := written1][second.key := written2], first.key) == Some(written2)
  {
    var written1 := Stamped(first, now1, region, Find(t, first.key));
    assert written1.version == map[region := 1];
    assert map[region := 1][region := 2] == map[region := 2];
  }
}
