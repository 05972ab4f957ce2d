/**
 * A stand-in for the table-metadata service: for each table its master region and replica
 * set, and the table's mastership lease, created on first request.
 */
module Metadata {
  import opened Types
  import Leases

  datatype TableMetadata = TableMetadata(master: Region, regions: set<Region>)

  class GlobalMetadata {
    var tables: map<TableName, TableMetadata>
    var leases: map<TableName, Leases.Lease>

    constructor (tables: map<TableName, TableMetadata>)
      ensures this.tables == tables && leases == map[]
    {
      this.tables := tables;
      leases := map[];
    }

    function GetMaster(table: TableName): Region
      reads this
      requires table in tables
    {
      tables[table].master
    }

    function ListRegions(table: TableName): set<Region>
      reads this
      requires table in tables
    {
      tables[table].regions
    }

    /** The table's lease; a new, unheld lease the first time it is asked for. */
    method GetLease(table: TableName) returns (lease: Leases.Lease)
      modifies this
      ensures tables == old(tables)
      ensures table in old(leases) ==> lease == old(leases[table]) && leases == old(leases)
      ensures table !in old(leases) ==>
        && fresh(lease) && lease.State() == Leases.Unheld
        && leases == old(leases)[table := lease]
    {
      if table in leases {
        lease := leases[table];
      } else {
        lease := new Leases.Lease();
        leases := leases[table := lease];
      }
    }
  }
}
