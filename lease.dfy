/**
 * The mastership lease of one table: an owner and expiration, plus an optional pending
 * transition to a next owner. Times are milliseconds; the caller's clock reading is the
 * explicit parameter `now`.
 */
module Leases {
  import opened Types

  /** Default lease length: 5 minutes. */
  const DEFAULT_DURATION: int := 1000 * 60 * 5
  /** Assumed bound on clock asynchrony between machines: 2 seconds. */
  const CLOCK_BOUND: int := 1000 * 2
  /** How long before expiration renewal should begin: 1 minute. */
  const TIME_TO_RENEW: int := 1000 * 60 * 1

  datatype LeaseState = LeaseState(
    owner: Option<Region>,
    expiration: int,
    nextOwner: Option<Region>,
    nextExpiration: int)
  {
    /** Surely expired on every clock within CLOCK_BOUND of `now`: past the expiration there too. */
    predicate IsExpired(now: int)
      ensures IsExpired(now) ==> MaybeExpired(now) && now > expiration
    {
      now > expiration + CLOCK_BOUND
    }

    /** Possibly expired on some clock within CLOCK_BOUND of `now`, in particular once past it. */
    predicate MaybeExpired(now: int)
      ensures now > expiration ==> MaybeExpired(now)
    {
      now > expiration - CLOCK_BOUND
    }

    /** Time to renew; in particular whenever the lease may have expired. */
    predicate AlmostExpired(now: int)
      ensures MaybeExpired(now) ==> AlmostExpired(now)
    {
      now > expiration - TIME_TO_RENEW
    }

    /** The pending transition's lease is surely expired: past its expiration on every clock. */
    predicate IsNextExpired(now: int)
      ensures IsNextExpired(now) ==> MaybeNextExpired(now) && now > nextExpiration
    {
      now > nextExpiration + CLOCK_BOUND
    }

    predicate MaybeNextExpired(now: int)
      ensures now > nextExpiration ==> MaybeNextExpired(now)
    {
      now > nextExpiration - CLOCK_BOUND
    }

    /** An unowned lease expires at the epoch, and so does an absent pending transition. */
    predicate Consistent()
    {
      && (owner.None? ==> expiration == 0)
      && (nextOwner.None? ==> nextExpiration == 0)
    }

    /**
     * A successful renewal leaves `region` the owner for a full duration from `now`, with no
     * pending transition; a failed one changes nothing.
     */
    function Renew(region: Region, now: int): (r: (LeaseState, bool))
      ensures r.1 ==> r.0.owner == Some(region) && r.0.expiration == now + DEFAULT_DURATION && r.0.nextOwner.None?
      ensures !r.1 ==> r.0 == this
      ensures Consistent() ==> r.0.Consistent()
    {
      if nextOwner.Some? then
        if Some(region) != nextOwner then (this, false)
        else if !IsExpired(now) then (this, false)
        else (LeaseState(Some(region), now + DEFAULT_DURATION, None, 0), true)
      else if Some(region) == owner then (this.(expiration := now + DEFAULT_DURATION), true)
      else (this, false)
    }

    /** A successful release leaves no owner and keeps the pending transition; a failed one changes nothing. */
    function Release(region: Region): (r: (LeaseState, bool))
      ensures r.1 ==> owner == Some(region) && r.0.owner.None? && r.0.expiration == 0
      ensures r.0.nextOwner == nextOwner && r.0.nextExpiration == nextExpiration
      ensures !r.1 ==> r.0 == this
      ensures Consistent() ==> r.0.Consistent()
    {
      if Some(region) != owner then (this, false)
      else (this.(owner := None, expiration := 0), true)
    }

    /**
     * Only a surely expired lease can be acquired; the acquirer then owns it for a full duration
     * from `now`, with no pending transition. A failed acquire changes nothing.
     */
    function Acquire(region: Region, now: int): (r: (LeaseState, bool))
      ensures r.1 ==> IsExpired(now)
      ensures r.1 ==> r.0.owner == Some(region) && r.0.expiration == now + DEFAULT_DURATION && r.0.nextOwner.None?
      ensures !r.1 ==> r.0 == this
      ensures Consistent() ==> r.0.Consistent()
    {
      if !IsExpired(now) then (this, false)
      else if nextOwner.Some? && !IsNextExpired(now) then (this, false)
      else (LeaseState(Some(region), now + DEFAULT_DURATION, None, 0), true)
    }

    /**
     * A take never fails to register `region`: a surely expired lease passes to it at once,
     * otherwise the current owner and expiration stay and `region` becomes the next owner.
     */
    function Take(region: Region, now: int): (r: (LeaseState, bool))
      ensures r.1 ==> r.0.owner == Some(region) && r.0.expiration == now + DEFAULT_DURATION && r.0.nextOwner.None?
      ensures !r.1 ==> r.0.owner == owner && r.0.expiration == expiration && r.0.nextOwner == Some(region)
      ensures Consistent() ==> r.0.Consistent()
    {
      if !IsExpired(now) then
        (this.(nextOwner := Some(region), nextExpiration := expiration + DEFAULT_DURATION), false)
      else (LeaseState(Some(region), now + DEFAULT_DURATION, None, 0), true)
    }
  }

  /** A new lease: already expired, with no owner and no pending transition. */
  const Unheld := LeaseState(None, 0, None, 0)

  class Lease {
    var owner: Option<Region>
    var expiration: int
    var nextOwner: Option<Region>
    var nextExpiration: int

    function State(): LeaseState
      reads this
    {
      LeaseState(owner, expiration, nextOwner, nextExpiration)
    }

    /** A lease that already expired, with no owner. */
    constructor ()
      ensures owner.None? && nextOwner.None?
      ensures expiration == 0 && nextExpiration == 0
    {
      owner := None;
      expiration := 0;
      nextOwner := None;
      nextExpiration := 0;
    }

    /** A lease for `owner` lasting DEFAULT_DURATION from `now`. */
    constructor Held(owner: Region, now: int)
      ensures this.owner == Some(owner) && expiration == now + DEFAULT_DURATION
      ensures nextOwner.None? && nextExpiration == 0
    {
      this.owner := Some(owner);
      expiration := now + DEFAULT_DURATION;
      nextOwner := None;
      nextExpiration := 0;
    }

    /**
     * With a pending transition only the next owner may renew, and only once the current
     * lease is surely expired; it then becomes the owner. Otherwise only the owner may
     * renew, and its lease is extended from `now` without any expiry check.
     */
    method Renew(region: Region, now: int) returns (ok: bool)
      modifies this
      ensures old(nextOwner).Some? ==>
        ok == (old(nextOwner) == Some(region) && old(State()).IsExpired(now))
      ensures old(nextOwner).None? ==> ok == (old(owner) == Some(region))
      ensures ok && old(nextOwner).Some? ==>
        State() == LeaseState(Some(region), now + DEFAULT_DURATION, None, 0)
      ensures ok && old(nextOwner).None? ==>
        State() == old(State()).(expiration := now + DEFAULT_DURATION)
      ensures !ok ==> State() == old(State())
      ensures (State(), ok) == old(State()).Renew(region, now)
    {
      if nextOwner.Some? {
        if Some(region) != nextOwner {
          return false;
        } else if !State().IsExpired(now) {
          return false;
        } else {
          owner := Some(region);
          expiration := now + DEFAULT_DURATION;
          nextOwner := None;
          nextExpiration := 0;
        }
      } else if Some(region) == owner {
        expiration := now + DEFAULT_DURATION;
      } else {
        return false;
      }
      return true;
    }

    /** Only the owner may release; the pending transition is left as it was. */
    method Release(region: Region) returns (ok: bool)
      modifies this
      ensures ok == (old(owner) == Some(region))
      ensures ok ==> State() == old(State()).(owner := None, expiration := 0)
      ensures !ok ==> State() == old(State())
      ensures (State(), ok) == old(State()).Release(region)
    {
      if Some(region) != owner {
        return false;
      }
      owner := None;
      expiration := 0;
      return true;
    }

    /** Succeeds only when the lease and any pending transition are surely expired. */
    method Acquire(region: Region, now: int) returns (ok: bool)
      modifies this
      ensures ok == (old(State()).IsExpired(now) && (old(nextOwner).None? || old(State()).IsNextExpired(now)))
      ensures ok ==> State() == LeaseState(Some(region), now + DEFAULT_DURATION, None, 0)
      ensures !ok ==> State() == old(State())
      ensures (State(), ok) == old(State()).Acquire(region, now)
    {
      if !State().IsExpired(now) {
        return false;
      } else if nextOwner.Some? && !State().IsNextExpired(now) {
        return false;
      }
      owner := Some(region);
      expiration := now + DEFAULT_DURATION;
      nextOwner := None;
      nextExpiration := 0;
      return true;
    }

    /**
     * Forceful takeover: an unexpired lease cannot be taken at once, so a transition to
     * `region` is scheduled after it; an expired lease is taken immediately.
     */
    method Take(region: Region, now: int) returns (ok: bool)
      modifies this
      ensures ok == old(State()).IsExpired(now)
      ensures !ok ==> State() == old(State()).(nextOwner := Some(region), nextExpiration := old(expiration) + DEFAULT_DURATION)
      ensures ok ==> State() == LeaseState(Some(region), now + DEFAULT_DURATION, None, 0)
      ensures (State(), ok) == old(State()).Take(region, now)
    {
      if !State().IsExpired(now) {
        nextOwner := Some(region);
        nextExpiration := expiration + DEFAULT_DURATION;
        return false;
      } else {
        owner := Some(region);
        expiration := now + DEFAULT_DURATION;
        nextOwner := None;
        nextExpiration := 0;
      }
      return true;
    }
  }

  /**
   * The thresholds are fixed distances apart: surely expired is possibly expired 2 * CLOCK_BOUND
   * later, and possibly expired is due for renewal TIME_TO_RENEW - CLOCK_BOUND later.
   */
  lemma ExpiryMargins(s: LeaseState, now: int)
    ensures s.IsExpired(now) <==> s.MaybeExpired(now - 2 * CLOCK_BOUND)
    ensures s.IsNextExpired(now) <==> s.MaybeNextExpired(now - 2 * CLOCK_BOUND)
    ensures s.MaybeExpired(now) <==> s.AlmostExpired(now - (TIME_TO_RENEW - CLOCK_BOUND))
  {
  }

  /** Once a threshold is passed it stays passed as the clock advances. */
  lemma ExpiryIsPermanent(s: LeaseState, now: int, later: int)
    requires now <= later
    ensures s.IsExpired(now) ==> s.IsExpired(later)
    ensures s.MaybeExpired(now) ==> s.MaybeExpired(later)
    ensures s.AlmostExpired(now) ==> s.AlmostExpired(later)
    ensures s.IsNextExpired(now) ==> s.IsNextExpired(later)
  {
  }

  /** One call of a lease operation, with the caller's clock reading. */
  datatype LeaseOp =
    | RenewOp(region: Region, now: int)
    | ReleaseOp(region: Region)
    | AcquireOp(region: Region, now: int)
    | TakeOp(region: Region, now: int)

  function Apply(s: LeaseState, op: LeaseOp): LeaseState
  {
    match op
    case RenewOp(r, now) => s.Renew(r, now).0
    case ReleaseOp(r) => s.Release(r).0
    case AcquireOp(r, now) => s.Acquire(r, now).0
    case TakeOp(r, now) => s.Take(r, now).0
  }

  /** The lease after a sequence of operations, applied first to last. */
  function Run(s: LeaseState, ops: seq<LeaseOp>): LeaseState
    decreases |ops|
  {
    if ops == [] then s else Apply(Run(s, ops[..|ops| - 1]), ops[|ops| - 1])
  }

  /** Every operation keeps the lease consistent. */
  lemma OperationsKeepConsistent(s: LeaseState, region: Region, now: int)
    requires s.Consistent()
    ensures Unheld.Consistent()
    ensures s.Renew(region, now).0.Consistent()
    ensures s.Release(region).0.Consistent()
    ensures s.Acquire(region, now).0.Consistent()
    ensures s.Take(region, now).0.Consistent()
  {
  }

  /** Any history of operations on a new lease leaves it consistent. */
  lemma {:induction false} RunKeepsConsistent(ops: seq<LeaseOp>)
    ensures Run(Unheld, ops).Consistent()
    decreases |ops|
  {
    if ops != [] {
      RunKeepsConsistent(ops[..|ops| - 1]);
      var op := ops[|ops| - 1];
      OperationsKeepConsistent(Run(Unheld, ops[..|ops| - 1]), op.region, if op.ReleaseOp? then 0 else op.now);
    }
  }

  /** Right after a successful acquire, an acquire by any region at the same time fails. */
  lemma AcquireExcludesAcquire(s: LeaseState, a: Region, b: Region, now: int)
    requires s.Acquire(a, now).1
    ensures !s.Acquire(a, now).0.Acquire(b, now).1
  {
  }

  /**
   * While the owner still trusts its lease on its own clock (not even possibly expired), no
   * region whose clock is within CLOCK_BOUND of the owner's can acquire or take it.
   */
  lemma NoTakeoverWhileOwnerTrusts(s: LeaseState, b: Region, ownerNow: int, otherNow: int)
    requires !s.MaybeExpired(ownerNow)
    requires otherNow - ownerNow <= CLOCK_BOUND
    ensures !s.Acquire(b, otherNow).1
    ensures !s.Take(b, otherNow).1
  {
  }

  /** Acquire by `a`, release by `a`, then acquire by `b` succeeds once past the epoch's skew window. */
  lemma AcquireReleaseAcquire(s: LeaseState, a: Region, b: Region, now1: int, now2: int)
    requires s.Acquire(a, now1).1
    requires now2 > CLOCK_BOUND
    ensures var s1 := s.Acquire(a, now1).0;
      && s1.Release(a).1
      && s1.Release(a).0.Acquire(b, now2).1
      && s1.Release(a).0.Acquire(b, now2).0.owner == Some(b)
  {
  }

  /**
   * `b` takes `a`'s unexpired lease: the take is deferred, `b` cannot renew while `a`'s lease
   * is not surely expired, `a` can no longer renew at any time, and once `a`'s lease is surely
   * expired `b`'s renewal hands it the lease.
   */
  lemma TakeDefersTransition(s: LeaseState, a: Region, b: Region, now: int, early: int, late: int)
    requires s.owner == Some(a) && a != b
    requires !s.IsExpired(now)
    requires !s.IsExpired(early) && s.IsExpired(late)
    ensures var t := s.Take(b, now);
      && !t.1
      && t.0.owner == Some(a) && t.0.expiration == s.expiration
      && t.0.nextOwner == Some(b) && t.0.nextExpiration == s.expiration + DEFAULT_DURATION
      && !t.0.Renew(b, early).1
      && !t.0.Renew(a, late).1
      && (forall n :: !t.0.Renew(a, n).1)
      && t.0.Renew(b, late).1
      && t.0.Renew(b, late).0 == LeaseState(Some(b), late + DEFAULT_DURATION, None, 0)
  {
  }
}
