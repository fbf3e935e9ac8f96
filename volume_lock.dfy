/** `VolumeLock`: an exclusive lock on a volume taken through an open stream.
    Taking the lock retries FSCTL_LOCK_VOLUME until it succeeds or has failed
    102 times; releasing it issues FSCTL_UNLOCK_VOLUME once and forgets the
    stream, so a second release does nothing. */
module VolumeLocking {
  import opened Wrappers
  import opened Win32

  /** The index of the last attempt the retry loop makes before giving up:
      attempts 0 through 101 are made, as the loop tests `i > 100` only
      after a failed attempt. */
  const LastAttempt: nat := 101

  /** The retry loop of the VolumeLock constructor. `lockSucceeds(i)` is the
      outcome of the i-th FSCTL_LOCK_VOLUME request. The loop stops at the
      first request that succeeds, or after the failure of request 101. */
  method TryLock(lockSucceeds: nat -> bool) returns (locked: bool, attempts: nat)
    ensures 1 <= attempts <= LastAttempt + 1
    ensures forall m :: 0 <= m < attempts - 1 ==> !lockSucceeds(m)
    ensures locked <==> lockSucceeds(attempts - 1)
    ensures !locked ==> attempts == LastAttempt + 1
  {
    var i: nat := 0;
    while !lockSucceeds(i)
      invariant i <= LastAttempt
      invariant forall m :: 0 <= m < i ==> !lockSucceeds(m)
      decreases LastAttempt - i
    {
      if i > 100 {
        return false, i + 1;
      }
      i := i + 1;
    }
    return true, i + 1;
  }

  /** Whether some request among the first `n` succeeds. */
  predicate SomeSuccess(lockSucceeds: nat -> bool, n: nat)
  {
    exists m :: 0 <= m < n && lockSucceeds(m)
  }

  /** The retry loop locks exactly when one of the 102 requests succeeds. */
  method TryLockSucceeds(lockSucceeds: nat -> bool) returns (locked: bool)
    ensures locked <==> SomeSuccess(lockSucceeds, LastAttempt + 1)
  {
    var attempts;
    locked, attempts := TryLock(lockSucceeds);
    if locked {
      assert lockSucceeds(attempts - 1);
    }
  }

  class VolumeLock {
    /** The stream the lock was taken through; None once released. */
    var stream: Option<Handle>

    /** The lock, once FSCTL_LOCK_VOLUME has succeeded on `s`. */
    constructor(s: Handle)
      ensures stream == Some(s)
    {
      stream := Some(s);
    }

    /** Dispose: a released lock is left alone; otherwise one
        FSCTL_UNLOCK_VOLUME request is made, whose failure is reported and
        leaves the lock held, and whose success forgets the stream. */
    method Dispose(unlockSucceeds: bool) returns (r: Result<(), Error>, unlockIssued: bool)
      modifies this
      ensures unlockIssued <==> old(stream).Some?
      ensures !unlockIssued ==> r == Ok(()) && stream == old(stream)
      ensures unlockIssued && !unlockSucceeds ==> r == Err(UnlockFailed) && stream == old(stream)
      ensures unlockIssued && unlockSucceeds ==> r == Ok(()) && stream.None?
    {
      if stream.None? {
        return Ok(()), false;
      }
      if !unlockSucceeds {
        return Err(UnlockFailed), true;
      }
      stream := None;
      return Ok(()), true;
    }
  }

  /** LockVolume: the constructor's retry loop on the stream, then the lock
      holding it, or the failure to lock. */
  method LockVolume(s: Handle, lockSucceeds: nat -> bool) returns (r: Result<VolumeLock, Error>)
    ensures r.Err? <==> !SomeSuccess(lockSucceeds, LastAttempt + 1)
    ensures r.Err? ==> r.error == LockFailed
    ensures r.Ok? ==> fresh(r.value) && r.value.stream == Some(s)
  {
    var locked := TryLockSucceeds(lockSucceeds);
    if !locked {
      return Err(LockFailed);
    }
    var l := new VolumeLock(s);
    return Ok(l);
  }

  /** A lock released successfully is released once: disposing it again
      issues no request and succeeds. */
  method DisposeTwice(l: VolumeLock, secondUnlockSucceeds: bool) returns (second: Result<(), Error>, again: bool)
    requires l.stream.Some?
    modifies l
    ensures l.stream.None?
    ensures !again && second == Ok(())
  {
    var first, issued := l.Dispose(true);
    assert issued && first == Ok(());
    second, again := l.Dispose(secondUnlockSucceeds);
  }
}
