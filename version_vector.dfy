/**
 * The mutable version-vector object: a counter map that `Bump` and `FromMap` update in
 * place. Every operation is proved against the value semantics in module Versions.
 */
module VersionVectors {
  import opened Types
  import Versions

  class VersionVector {
    var vector: Versions.Vector

    /** A vector in which no region has written yet. */
    constructor Empty()
      ensures vector == map[]
      ensures forall r :: Count(r) == 0
    {
      vector := map[];
    }

    /** The vector of a first write by `replica`: count 1 there, 0 everywhere else. */
    constructor Single(replica: Region)
      ensures vector == Versions.Single(replica)
      ensures Count(replica) == 1
      ensures forall r :: r != replica ==> Count(r) == 0
    {
      vector := map[replica := 1];
    }

    /** A region without an entry has count 0; otherwise the stored count. */
    function Count(replica: Region): (c: nat)
      reads this
      ensures replica !in vector ==> c == 0
      ensures replica in vector ==> c == vector[replica]
    {
      Versions.Count(vector, replica)
    }

    /** Increment `replica`'s entry (inserting 1 when absent) and return this same object. */
    method Bump(replica: Region) returns (self: VersionVector)
      modifies this
      ensures self == this
      ensures Count(replica) == old(Count(replica)) + 1
      ensures forall r :: r != replica ==> Count(r) == old(Count(r))
      ensures vector == Versions.Bump(old(vector), replica)
    {
      if replica !in vector {
        vector := vector[replica := 1];
      } else {
        var count := vector[replica];
        count := count + 1;
        vector := vector[replica := count];
      }
      self := this;
    }

    /** Scans `other`'s regions, stopping at the first one whose count exceeds this vector's. */
    method Dominates(other: VersionVector) returns (comparison: bool)
      ensures comparison == Versions.Dominates(vector, other.vector)
    {
      comparison := true;
      var remaining := other.vector.Keys;
      while remaining != {}
        invariant remaining <= other.vector.Keys
        invariant forall r :: r in other.vector && r !in remaining ==> other.Count(r) <= Count(r)
        decreases remaining
      {
        var r :| r in remaining;
        if other.Count(r) > Count(r) {
          comparison := false;
          break;
        }
        remaining := remaining - {r};
      }
    }

    /** The counter map itself: it gives every region the count this vector gives it. */
    function ToMap(): (m: Versions.Vector)
      reads this
      ensures forall r :: Versions.Count(m, r) == Count(r)
    {
      vector
    }

    /** Replace the counts by `m` and return this same object. */
    method FromMap(m: Versions.Vector) returns (self: VersionVector)
      modifies this
      ensures self == this && vector == m
      ensures forall r :: Count(r) == Versions.Count(m, r)
    {
      vector := m;
      self := this;
    }
  }

  /**
   * `new VersionVector().fromMap(v.toMap())`: the copy has the same count for every region,
   * and so compares under domination exactly as `v` does.
   */
  method RoundTrip(v: VersionVector) returns (w: VersionVector)
    ensures forall r :: w.Count(r) == v.Count(r)
    ensures forall u :: Versions.Dominates(w.vector, u) <==> Versions.Dominates(v.vector, u)
    ensures forall u :: Versions.Dominates(u, w.vector) <==> Versions.Dominates(u, v.vector)
  {
    w := new VersionVector.Empty();
    w := w.FromMap(v.ToMap());
  }
}
