/**
 * A stand-in for the per-region item store the core writes through: one table of items per
 * (table name, region). A replica that was never written reads as an empty table.
 */
module Store {
  import opened Types
  import opened Items

  type Table = map<Key, Item>

  /** Every item is stored under its own primary key. */
  predicate WellKeyed(t: Table)
  {
    forall k :: k in t ==> t[k].key == k
  }

  function Find(t: Table, key: Key): Option<Item>
  {
    if key in t then Some(t[key]) else None
  }

  /** The item an update request starts from: the stored one, or a new item with only its key. */
  function UpdateBase(t: Table, key: Key): Item
  {
    if key in t then t[key] else Item(key, map[], "", 0, map[])
  }

  function TableOf(replicas: map<(TableName, Region), Table>, table: TableName, region: Region): Table
  {
    if (table, region) in replicas then replicas[(table, region)] else map[]
  }

  /** The scan conditions the core uses: everything, or items from `origin` stamped after `since`. */
  datatype ScanFilter = All | NewerFrom(origin: Region, since: int)

  predicate Passes(f: ScanFilter, item: Item)
  {
    match f
    case All => true
    case NewerFrom(origin, since) => item.origin == origin && item.timestamp > since
  }

  /** The keys a scan with filter `f` must return. */
  function Selected(t: Table, f: ScanFilter): set<Key>
  {
    set k | k in t && Passes(f, t[k])
  }

  /** `items` lists each item of `t` that passes `f` exactly once, in some order. */
  ghost predicate IsScan(items: seq<Item>, t: Table, f: ScanFilter)
  {
    && (forall i :: 0 <= i < |items| ==> items[i].key in Selected(t, f) && t[items[i].key] == items[i])
    && (forall i, j :: 0 <= i < j < |items| ==> items[i].key != items[j].key)
    && (forall k :: k in Selected(t, f) ==> exists i :: 0 <= i < |items| && items[i].key == k)
  }

  /** A handle naming one physical replica of a table. */
  class TableHandle {
    const table: TableName
    const region: Region

    constructor (table: TableName, region: Region)
      ensures this.table == table && this.region == region
    {
      this.table := table;
      this.region := region;
    }
  }

  class ItemStore {
    var replicas: map<(TableName, Region), Table>

    ghost predicate Valid()
      reads this
    {
      forall p :: p in replicas ==> WellKeyed(replicas[p])
    }

    function Contents(h: TableHandle): Table
      reads this
    {
      TableOf(replicas, h.table, h.region)
    }

    constructor ()
      ensures Valid() && replicas == map[]
    {
      replicas := map[];
    }

    method GetItem(h: TableHandle, key: Key) returns (item: Option<Item>)
      ensures item == Find(Contents(h), key)
    {
      item := Find(Contents(h), key);
    }

    method PutItem(h: TableHandle, item: Item)
      requires Valid()
      modifies this
      ensures Valid()
      ensures replicas == old(replicas)[(h.table, h.region) := old(Contents(h))[item.key := item]]
    {
      replicas := replicas[(h.table, h.region) := Contents(h)[item.key := item]];
    }

    method UpdateItem(h: TableHandle, key: Key, updates: seq<AttributeUpdate>) returns (item: Item)
      requires Valid()
      modifies this
      ensures Valid()
      ensures item == ApplyUpdates(UpdateBase(old(Contents(h)), key), updates)
      ensures replicas == old(replicas)[(h.table, h.region) := old(Contents(h))[key := item]]
    {
      item := ApplyUpdates(UpdateBase(Contents(h), key), updates);
      ApplyUpdatesKeepsKey(UpdateBase(Contents(h), key), updates);
      replicas := replicas[(h.table, h.region) := Contents(h)[key := item]];
    }

    method Scan(h: TableHandle, f: ScanFilter) returns (items: seq<Item>)
      requires Valid()
      ensures IsScan(items, Contents(h), f)
    {
      var t := Contents(h);
      var todo := Selected(t, f);
      ghost var done: set<Key> := {};
      items := [];
      while todo != {}
        invariant todo !! done && todo + done == Selected(t, f)
        invariant forall i :: 0 <= i < |items| ==> items[i].key in done && t[items[i].key] == items[i]
        invariant forall i, j :: 0 <= i < j < |items| ==> items[i].key != items[j].key
        invariant forall k :: k in done ==> exists i :: 0 <= i < |items| && items[i].key == k
        decreases todo
      {
        var k :| k in todo;
        assert t[k].key == k;
        ghost var prev := items;
        items := items + [t[k]];
        assert forall i :: 0 <= i < |prev| ==> items[i] == prev[i];
        assert items[|prev|].key == k;
        todo := todo - {k};
        done := done + {k};
      }
    }
  }
}
