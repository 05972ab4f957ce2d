/**
 * The conflict-resolution policy: decides whether two copies of an item were written
 * concurrently and, if so, which copy wins. Pure functions of the items' system attributes.
 */
module ConflictResolver {
  import opened Types
  import opened Items
  import opened Versions

  /**
   * Two present copies conflict when neither version dominates the other. Conflicting copies
   * never carry the same version.
   */
  predicate IsConflict(one: Option<Item>, two: Option<Item>)
    ensures IsConflict(one, two) ==> one.Some? && two.Some? && one.value.version != two.value.version
  {
    if one.None? || two.None? then false
    else !(Dominates(one.value.version, two.value.version) || Dominates(two.value.version, one.value.version))
  }

  /**
   * Does `one` beat `two`? Causal order first, then the master's copy, then the later timestamp.
   * A winner is never strictly superseded by the loser, and the master's copy wins whenever it
   * is not strictly superseded.
   */
  predicate IsWinner(one: Item, two: Item, master: Region)
    ensures IsWinner(one, two, master) ==> Dominates(one.version, two.version) || !Dominates(two.version, one.version)
    ensures one.origin == master && !Dominates(two.version, one.version) ==> IsWinner(one, two, master)
  {
    if Dominates(one.version, two.version) then true
    else if Dominates(two.version, one.version) then false
    else if one.origin == master then true
    else if two.origin == master then false
    else one.timestamp > two.timestamp
  }

  lemma NoConflictWithAbsent(one: Option<Item>, two: Option<Item>)
    requires one.None? || two.None?
    ensures !IsConflict(one, two)
  {
  }

  lemma ConflictSymmetric(one: Option<Item>, two: Option<Item>)
    ensures IsConflict(one, two) == IsConflict(two, one)
  {
  }

  /** Present copies conflict exactly when each has counted a write the other has not seen. */
  lemma ConflictIffEachAhead(a: Item, b: Item)
    ensures IsConflict(Some(a), Some(b)) <==>
      (exists r :: Count(a.version, r) > Count(b.version, r)) && (exists r :: Count(b.version, r) > Count(a.version, r))
  {
    DominatesPointwise(a.version, b.version);
    DominatesPointwise(b.version, a.version);
  }

  /** A copy whose version dominates the other's (in particular an equal version) never conflicts. */
  lemma NoConflictWhenDominated(a: Item, b: Item)
    requires Dominates(a.version, b.version) || Dominates(b.version, a.version) || a.version == b.version
    ensures !IsConflict(Some(a), Some(b))
  {
    if a.version == b.version {
      DominatesReflexive(a.version);
    }
  }

  lemma WinsWhenDominating(a: Item, b: Item, master: Region)
    requires Dominates(a.version, b.version)
    ensures IsWinner(a, b, master)
  {
  }

  /** Copies with equal versions each win against the other. */
  lemma EqualVersionsBothWin(a: Item, b: Item, master: Region)
    requires a.version == b.version
    ensures IsWinner(a, b, master) && IsWinner(b, a, master)
  {
    DominatesReflexive(a.version);
  }

  lemma LosesWhenStrictlyDominated(a: Item, b: Item, master: Region)
    requires Dominates(b.version, a.version) && !Dominates(a.version, b.version)
    ensures !IsWinner(a, b, master)
  {
  }

  /** For concurrent copies, the copy written at the master wins in both argument orders. */
  lemma MasterCopyWins(a: Item, b: Item, master: Region)
    requires IsConflict(Some(a), Some(b))
    requires a.origin == master && b.origin != master
    ensures IsWinner(a, b, master) && !IsWinner(b, a, master)
  {
  }

  /** Concurrent copies that both originate at the master each win against the other. */
  lemma BothMasterCopiesWin(a: Item, b: Item, master: Region)
    requires IsConflict(Some(a), Some(b))
    requires a.origin == master && b.origin == master
    ensures IsWinner(a, b, master) && IsWinner(b, a, master)
  {
  }

  /** Away from the master, exactly one of two concurrent copies with distinct timestamps wins. */
  lemma LaterTimestampWins(a: Item, b: Item, master: Region)
    requires IsConflict(Some(a), Some(b))
    requires a.origin != master && b.origin != master
    requires a.timestamp != b.timestamp
    ensures IsWinner(a, b, master) != IsWinner(b, a, master)
    ensures IsWinner(a, b, master) <==> a.timestamp > b.timestamp
  {
  }

  /**
   * Of two copies at least one wins, except for concurrent copies written away from the master
   * with equal timestamps.
   */
  lemma SomeCopyWins(a: Item, b: Item, master: Region)
    ensures IsWinner(a, b, master) || IsWinner(b, a, master) ||
      (IsConflict(Some(a), Some(b)) && a.origin != master && b.origin != master && a.timestamp == b.timestamp)
  {
  }

  /** Away from the master, concurrent copies with equal timestamps both lose. */
  lemma EqualTimestampsBothLose(a: Item, b: Item, master: Region)
    requires IsConflict(Some(a), Some(b))
    requires a.origin != master && b.origin != master
    requires a.timestamp == b.timestamp
    ensures !IsWinner(a, b, master) && !IsWinner(b, a, master)
  {
  }

  /** On a conflict the decision is made by the tie-break alone: master's copy, then later timestamp. */
  lemma ConflictUsesTieBreak(a: Item, b: Item, master: Region)
    requires IsConflict(Some(a), Some(b))
    ensures IsWinner(a, b, master) <==> a.origin == master || (b.origin != master && a.timestamp > b.timestamp)
  {
  }
}
