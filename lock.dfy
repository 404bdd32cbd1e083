/** go/internal/model/lock.go: an advisory lock on a task id or a path. */
module LockModel {
  import opened Clock

  /** DefaultLockExpiry: four hours. */
  const DefaultLockExpiry: int := 4 * NanosPerHour

  datatype Lock = Lock(target: string, lockedBy: string, lockedAt: Instant, expiresAt: Instant)
  {
    /** IsExpired: strictly after the expiry instant (`time.After`). */
    predicate IsExpired(now: Instant)
    {
      now > expiresAt
    }

    /** IsOwnedBy: the holder's name, compared exactly (case matters). */
    predicate IsOwnedBy(user: string)
    {
      lockedBy == user
    }
  }

  /** NewLock: held by `lockedBy` from `now` until four hours later. */
  function NewLock(target: string, lockedBy: string, now: Instant): (l: Lock)
    ensures l.target == target && l.lockedBy == lockedBy
    ensures l.lockedAt == now && l.expiresAt - l.lockedAt == DefaultLockExpiry
    ensures forall t :: t <= now + DefaultLockExpiry ==> !l.IsExpired(t)
    ensures forall t :: t > now + DefaultLockExpiry ==> l.IsExpired(t)
  {
    Lock(target, lockedBy, now, now + DefaultLockExpiry)
  }

  /** A lock is still active at its expiry instant and expired one nanosecond later. */
  lemma ExpiryIsStrict(l: Lock)
    ensures !l.IsExpired(l.expiresAt) && l.IsExpired(l.expiresAt + 1)
  {
  }

  /** Once expired, a lock stays expired. */
  lemma ExpiryIsMonotone(l: Lock, t: Instant, t': Instant)
    requires l.IsExpired(t) && t <= t'
    ensures l.IsExpired(t')
  {
  }
}
