/** Target leases of lab/inventory.py. */
module Inventory {
  import opened Basics

  datatype TargetLock = TargetLock(lockId: string, targetId: string, owner: string, expiresAt: real)
  {
    predicate Expired(now: real) { now >= expiresAt }
  }

  datatype LeaseError = TargetNotFound | AlreadyLocked(owner: string) | LockNotFound

  type Locks = map<string, TargetLock>

  /** Whether a target can be acquired: it is known, and any lock stored for it has expired. */
  predicate Free(targets: set<string>, locks: Locks, targetId: string, now: real) {
    targetId in targets && (targetId in locks ==> locks[targetId].Expired(now))
  }

  /** The targets whose lock has this id. */
  function LockedWith(locks: Locks, lockId: string): set<string> {
    set t | t in locks && locks[t].lockId == lockId
  }

  class TargetInventory {
    var targets: set<string>
    var locks: Locks

    constructor (targets: set<string>)
      ensures this.targets == targets && locks == map[]
    {
      this.targets := targets;
      locks := map[];
    }

    method Add(targetId: string)
      modifies this`targets
      ensures targets == old(targets) + {targetId}
    {
      targets := targets + {targetId};
    }

    /** The clock is read once for the check and again for the new lease. */
    method Acquire(targetId: string, owner: string, ttlSeconds: int, checkedAt: real, grantedAt: real, freshId: string)
      returns (r: Result<TargetLock, LeaseError>)
      modifies this`locks
      ensures r.Success? <==>
        targetId in targets && (targetId in old(locks) ==> old(locks)[targetId].expiresAt <= checkedAt)
      ensures r.Success? ==>
        && r.value == TargetLock(freshId, targetId, owner, grantedAt + ttlSeconds as real)
        && locks == old(locks)[targetId := r.value]
      ensures r.Failure? ==>
        && locks == old(locks)
        && r.error == if targetId in targets then AlreadyLocked(locks[targetId].owner) else TargetNotFound
    {
      if targetId !in targets { return Failure(TargetNotFound); }
      if targetId in locks && !locks[targetId].Expired(checkedAt) {
        return Failure(AlreadyLocked(locks[targetId].owner));
      }
      var lock := TargetLock(freshId, targetId, owner, grantedAt + ttlSeconds as real);
      locks := locks[targetId := lock];
      r := Success(lock);
    }

    /** The first lock found with the id is deleted, in whatever order the locks are visited. */
    method Release(lockId: string) returns (r: Result<string, LeaseError>)
      modifies this`locks
      ensures r.Success? <==> exists t :: t in old(locks) && old(locks)[t].lockId == lockId
      ensures r.Success? ==>
        r.value in old(locks) && old(locks)[r.value].lockId == lockId && locks == old(locks) - {r.value}
      ensures r.Failure? ==> r.error == LockNotFound && locks == old(locks)
    {
      var rest := locks.Keys;
      while rest != {}
        invariant locks == old(locks) && rest <= locks.Keys
        invariant forall t :: t in locks && locks[t].lockId == lockId ==> t in rest
        decreases |rest|
      {
        var targetId :| targetId in rest;
        if locks[targetId].lockId == lockId {
          locks := locks - {targetId};
          return Success(targetId);
        }
        rest := rest - {targetId};
      }
      r := Failure(LockNotFound);
    }
  }
}
