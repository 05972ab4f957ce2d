/**
 * Items of a global table: user attributes plus the three system attributes the router
 * stamps on every write (origin region, writer's timestamp, version vector).
 */
module Items {
  import opened Types
  import Versions

  datatype Value = Str(s: string) | Num(n: int)

  datatype Item = Item(
    key: Key,
    attributes: map<string, Value>,
    origin: Region,
    timestamp: int,
    version: Versions.Vector)

  /** One attribute update of an update request; the last three write the system attributes. */
  datatype AttributeUpdate =
    | Put(name: string, value: Value)
    | Delete(name: string)
    | PutTimestamp(timestamp: int)
    | PutOrigin(origin: Region)
    | PutVersion(version: Versions.Vector)

  function ApplyUpdate(item: Item, u: AttributeUpdate): Item
  {
    match u
    case Put(name, value) => item.(attributes := item.attributes[name := value])
    case Delete(name) => item.(attributes := item.attributes - {name})
    case PutTimestamp(t) => item.(timestamp := t)
    case PutOrigin(r) => item.(origin := r)
    case PutVersion(v) => item.(version := v)
  }

  /** The updates applied in order, first to last. */
  function ApplyUpdates(item: Item, us: seq<AttributeUpdate>): Item
    decreases |us|
  {
    if us == [] then item else ApplyUpdate(ApplyUpdates(item, us[..|us| - 1]), us[|us| - 1])
  }

  /** The system-attribute updates the router appends to a client's update request. */
  function SystemUpdates(now: int, region: Region, version: Versions.Vector): seq<AttributeUpdate>
  {
    [PutTimestamp(now), PutOrigin(region), PutVersion(version)]
  }

  lemma {:induction false} ApplyUpdatesAppend(item: Item, us: seq<AttributeUpdate>, vs: seq<AttributeUpdate>)
    ensures ApplyUpdates(item, us + vs) == ApplyUpdates(ApplyUpdates(item, us), vs)
    decreases |vs|
  {
    if vs == [] {
      assert us + vs == us;
    } else {
      var last := |vs| - 1;
      assert (us + vs)[..|us + vs| - 1] == us + vs[..last];
      ApplyUpdatesAppend(item, us, vs[..last]);
    }
  }

  /** No update changes the primary key. */
  lemma {:induction false} ApplyUpdatesKeepsKey(item: Item, us: seq<AttributeUpdate>)
    ensures ApplyUpdates(item, us).key == item.key
    decreases |us|
  {
    if us != [] {
      ApplyUpdatesKeepsKey(item, us[..|us| - 1]);
    }
  }

  /**
   * Whatever the client's updates do, once the system updates are appended the result carries
   * exactly the stamped origin, timestamp and version, and the user attributes the client's
   * updates alone produce.
   */
  lemma StampedAfterUpdates(item: Item, us: seq<AttributeUpdate>, now: int, region: Region, version: Versions.Vector)
    ensures var r := ApplyUpdates(item, us + SystemUpdates(now, region, version));
      && r.key == item.key
      && r.origin == region && r.timestamp == now && r.version == version
      && r.attributes == ApplyUpdates(item, us).attributes
  {
    var sys := SystemUpdates(now, region, version);
    ApplyUpdatesAppend(item, us, sys);
    ApplyUpdatesKeepsKey(item, us);
    var b := ApplyUpdates(item, us);
    assert sys[..1][..0] == [];
    assert ApplyUpdates(b, sys[..1]) == b.(timestamp := now);
    assert sys[..2][..1] == sys[..1];
    assert ApplyUpdates(b, sys[..2]) == b.(timestamp := now, origin := region);
    assert sys[..|sys| - 1] == sys[..2];
    assert ApplyUpdates(b, sys) == b.(timestamp := now, origin := region, version := version);
  }
}
